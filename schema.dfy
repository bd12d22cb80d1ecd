/**
 * Rows of the `tasks`, `task_updates` and `projects` tables, and the request
 * bodies the task service accepts.  Optional request fields are `Option`s:
 * `None` stands for a field the request leaves out (`undefined`).
 */
module Schema {
  import opened Wrappers

  type TaskId = nat
  type ProjectId = nat
  type UserId = nat

  datatype Status = Pending | InProgress | Completed
  datatype Priority = Low | Medium | High

  /** One row of `tasks`; `parentId == None` is a SQL NULL, a root-level task. */
  datatype Task = Task(
    id: TaskId,
    projectId: ProjectId,
    parentId: Option<TaskId>,
    name: string,
    desc: Option<string>,
    assignedTo: Option<UserId>,
    startDate: Option<string>,
    endDate: Option<string>,
    estimatedHours: int,
    actualHours: int,
    priority: Priority,
    status: Status,
    progress: nat,
    level: nat,
    sortOrder: int,
    createdBy: UserId)

  /** One row of the append-only `task_updates` log. */
  datatype TaskUpdate = TaskUpdate(
    updateId: nat,
    taskId: TaskId,
    userId: UserId,
    oldProgress: nat,
    newProgress: Option<nat>,
    oldStatus: Status,
    newStatus: Option<Status>,
    hoursSpent: int,
    note: Option<string>)

  /** The columns of `projects` the modelled code reads or writes. */
  datatype Project = Project(id: ProjectId, contractNo: string, progress: nat)

  /** `CreateTaskDto`; a `parent_id` that is left out or null is `None`. */
  datatype CreateTaskDto = CreateTaskDto(
    projectId: ProjectId,
    parentId: Option<TaskId>,
    name: string,
    desc: Option<string>,
    assignedTo: Option<UserId>,
    startDate: Option<string>,
    endDate: Option<string>,
    estimatedHours: Option<int>,
    priority: Option<Priority>,
    status: Option<Status>,
    progress: Option<nat>)

  /** `UpdateTaskDto`; `assignedTo == Some(None)` sets the column to NULL. */
  datatype UpdateTaskDto = UpdateTaskDto(
    name: Option<string>,
    desc: Option<string>,
    assignedTo: Option<Option<UserId>>,
    startDate: Option<string>,
    endDate: Option<string>,
    estimatedHours: Option<int>,
    actualHours: Option<int>,
    priority: Option<Priority>,
    status: Option<Status>,
    progress: Option<nat>)
  {
    /** No field is supplied, so the service issues no UPDATE. */
    predicate IsEmpty() {
      name.None? && desc.None? && assignedTo.None? && startDate.None? && endDate.None? &&
      estimatedHours.None? && actualHours.None? && priority.None? && status.None? && progress.None?
    }
  }

  /**
   * The errors the task service throws: a missing task, a task missing when it
   * is read back after an update, and a deletion refused because of children.
   */
  datatype TaskError = TaskNotFound | ReloadFailed | HasSubtasks

  /** `CreateTaskUpdateDto`. */
  datatype CreateTaskUpdateDto = CreateTaskUpdateDto(
    newProgress: Option<nat>,
    newStatus: Option<Status>,
    hoursSpent: Option<int>,
    note: Option<string>)
}
