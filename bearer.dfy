// Reading the bearer token out of an HTTP `Authorization` header
// (backend/src/utils/jwt.ts, extractTokenFromHeader).

module Bearer {
  import opened Wrappers

  /**
   * `s.split(' ')` in JavaScript: the pieces between consecutive spaces, from
   * left to right. The empty string splits into one empty piece, and two
   * adjacent spaces leave an empty piece between them.
   */
  function Split(s: string): (parts: seq<string>)
    ensures |parts| >= 1
    decreases |s|
  {
    if |s| == 0 then [""]
    else
      var rest := Split(s[1..]);
      if s[0] == ' ' then [""] + rest
      else [[s[0]] + rest[0]] + rest[1..]
  }

  /** The pieces put back together with one space between neighbours. */
  function Join(parts: seq<string>): string
    requires |parts| >= 1
  {
    if |parts| == 1 then parts[0] else parts[0] + " " + Join(parts[1..])
  }

  predicate SpaceFree(s: string) {
    forall i :: 0 <= i < |s| ==> s[i] != ' '
  }

  function Spaces(s: string): nat {
    if |s| == 0 then 0 else (if s[0] == ' ' then 1 else 0) + Spaces(s[1..])
  }

  /**
   * `extractTokenFromHeader`: a missing or empty header has no token; otherwise
   * the header split at spaces must give exactly two pieces, the first of
   * them exactly `Bearer` (case matters), and the token is the second piece.
   */
  function ExtractToken(header: Option<string>): (r: Option<string>)
    ensures header.None? || header == Some("") ==> r.None?
    ensures r.Some? ==> header == Some("Bearer " + r.value) && SpaceFree(r.value)
  {
    if header.None? || header.value == "" then None
    else
      var parts := Split(header.value);
      if |parts| != 2 || parts[0] != "Bearer" then None
      else
        TwoPieces(header.value);
        assert "Bearer" + " " + parts[1] == "Bearer " + parts[1];
        Some(parts[1])
  }

  /** A string that splits into two pieces is the first, a space and the space-free second. */
  lemma TwoPieces(s: string)
    requires |Split(s)| == 2
    ensures s == Split(s)[0] + " " + Split(s)[1] && SpaceFree(Split(s)[1])
  {
    var parts := Split(s);
    JoinSplit(s);
    SplitSpaceFree(s);
    assert parts[1..] == [parts[1]];
  }

  // ---------------------------------------------------------------- split

  /** Joining the pieces gives back the split string. */
  lemma {:induction false} JoinSplit(s: string)
    ensures Join(Split(s)) == s
    decreases |s|
  {
    if |s| > 0 {
      JoinSplit(s[1..]);
      var rest := Split(s[1..]);
      if s[0] == ' ' {
        assert Split(s)[1..] == rest;
      } else {
        if |rest| == 1 {
          assert Join(Split(s)) == [s[0]] + rest[0];
        } else {
          assert Split(s)[1..] == rest[1..];
          assert Join(rest) == rest[0] + " " + Join(rest[1..]);
        }
      }
      assert s == [s[0]] + s[1..];
    }
  }

  /** No piece contains a space. */
  lemma {:induction false} SplitSpaceFree(s: string)
    ensures forall k :: 0 <= k < |Split(s)| ==> SpaceFree(Split(s)[k])
    decreases |s|
  {
    if |s| > 0 {
      SplitSpaceFree(s[1..]);
      var rest := Split(s[1..]);
      if s[0] != ' ' {
        var head := [s[0]] + rest[0];
        assert SpaceFree(rest[0]);
        assert forall i :: 1 <= i < |head| ==> head[i] == rest[0][i - 1];
      }
    }
  }

  /** There is one piece more than there are spaces. */
  lemma {:induction false} SplitCount(s: string)
    ensures |Split(s)| == Spaces(s) + 1
    decreases |s|
  {
    if |s| > 0 {
      SplitCount(s[1..]);
    }
  }

  /** Space-free pieces joined with single spaces split back into the same pieces. */
  lemma {:induction false} SplitJoin(parts: seq<string>)
    requires |parts| >= 1
    requires forall k :: 0 <= k < |parts| ==> SpaceFree(parts[k])
    ensures Split(Join(parts)) == parts
    decreases |parts|, |parts[0]|
  {
    var p := parts[0];
    if |p| > 0 {
      var shorter := [p[1..]] + parts[1..];
      assert forall k :: 0 <= k < |shorter| ==> SpaceFree(shorter[k]) by {
        assert shorter[0] == p[1..];
        assert forall k :: 1 <= k < |shorter| ==> shorter[k] == parts[k];
      }
      SplitJoin(shorter);
      JoinFirst(parts, shorter);
      var s := Join(parts);
      assert s[0] == p[0] && p[0] != ' ';
      assert s[1..] == Join(shorter);
      assert Split(s) == [[p[0]] + shorter[0]] + shorter[1..];
      assert p == [p[0]] + p[1..];
      assert parts == [p] + parts[1..];
      assert shorter[1..] == parts[1..];
    } else if |parts| > 1 {
      SplitJoin(parts[1..]);
      assert Join(parts) == " " + Join(parts[1..]);
      assert Join(parts)[1..] == Join(parts[1..]);
      assert parts == [""] + parts[1..];
    }
  }

  /** Dropping the first character of the first piece drops the first character of the joined string. */
  lemma JoinFirst(parts: seq<string>, shorter: seq<string>)
    requires |parts| >= 1 && |parts[0]| > 0
    requires shorter == [parts[0][1..]] + parts[1..]
    ensures |Join(parts)| > 0 && Join(parts)[0] == parts[0][0]
    ensures Join(parts)[1..] == Join(shorter)
  {
    var p := parts[0];
    assert p == [p[0]] + p[1..];
    if |parts| > 1 {
      assert shorter[1..] == parts[1..];
      assert Join(parts) == [p[0]] + (p[1..] + " " + Join(parts[1..]));
    }
  }

  // ---------------------------------------------------------------- extract

  /**
   * A token is found exactly when the header is `Bearer`, one space and a
   * space-free token; the token may be empty.
   */
  lemma ExtractTokenIff(header: Option<string>, token: string)
    ensures ExtractToken(header) == Some(token) <==>
      header == Some("Bearer " + token) && SpaceFree(token)
  {
    if header == Some("Bearer " + token) && SpaceFree(token) {
      BearerSplit(token);
    }
  }

  lemma BearerSplit(token: string)
    requires SpaceFree(token)
    ensures Split("Bearer " + token) == ["Bearer", token]
  {
    var parts := ["Bearer", token];
    assert SpaceFree(parts[0]) by {
      assert forall i :: 0 <= i < 6 ==> "Bearer"[i] != ' ';
    }
    SplitJoin(parts);
    assert Join(parts) == "Bearer" + " " + token;
    assert "Bearer" + " " + token == "Bearer " + token;
  }

  /** `Bearer ` followed by a space-free token yields that token, the empty token included. */
  lemma RoundTrip(token: string)
    requires SpaceFree(token)
    ensures ExtractToken(Some("Bearer " + token)) == Some(token)
  {
    ExtractTokenIff(Some("Bearer " + token), token);
  }

  /** A header with any number of pieces other than two has no token. */
  lemma PieceCount(header: string)
    requires Spaces(header) != 1
    ensures ExtractToken(Some(header)) == None
  {
    SplitCount(header);
  }

  /** A missing or empty header has no token, and neither has a bare `Bearer`. */
  lemma NoHeader()
    ensures ExtractToken(None) == None
    ensures ExtractToken(Some("")) == None
    ensures ExtractToken(Some("Bearer")) == None
  {
    assert Spaces("Bearer") == 0;
    PieceCount("Bearer");
  }

  /** Three pieces leave no token. */
  lemma ThreePieces()
    ensures ExtractToken(Some("Bearer a b")) == None
  {
  }

  /** Two spaces in a row leave an empty middle piece, and no token. */
  lemma DoubleSpace()
    ensures ExtractToken(Some("Bearer  x")) == None
  {
  }

  /** The scheme is compared case-sensitively. */
  lemma SchemeIsCaseSensitive(token: string)
    requires SpaceFree(token)
    ensures ExtractToken(Some("bearer " + token)) == None
    ensures ExtractToken(Some("BEARER " + token)) == None
  {
    var h1, h2 := "bearer " + token, "BEARER " + token;
    assert h1[0] == 'b' && h2[1] == 'E';
  }
}
