/**
 * The task input form: a submission adds a task only when the text is not
 * blank once trimmed, and then adds the text as typed (untrimmed).
 */
module TaskInput {
  import opened Wrappers
  import opened Dnd

  /**
   * The characters `String.prototype.trim` strips: ECMAScript WhiteSpace
   * (tab, vertical tab, form feed, no-break space, byte order mark and the
   * Unicode space separators) and LineTerminator (line feed, carriage
   * return, line and paragraph separators).
   */
  predicate IsJsWhitespace(c: char)
  {
    var u := c as int;
    || u == 0x0009 || u == 0x000B || u == 0x000C || u == 0xFEFF
    || u == 0x0020 || u == 0x00A0 || u == 0x1680 || (0x2000 <= u <= 0x200A)
    || u == 0x202F || u == 0x205F || u == 0x3000
    || u == 0x000A || u == 0x000D || u == 0x2028 || u == 0x2029
  }

  /** Every character of `s` from index `lo` up to, not including, `hi` is whitespace. */
  predicate BlankBetween(s: string, lo: nat, hi: nat)
    requires lo <= hi <= |s|
  {
    forall k :: lo <= k < hi ==> IsJsWhitespace(s[k])
  }

  /** Every character of `s` is whitespace. */
  predicate IsBlank(s: string)
  {
    BlankBetween(s, 0, |s|)
  }

  /** `s` without its leading whitespace. */
  function TrimStart(s: string): (r: string)
    ensures |r| <= |s| && r == s[|s| - |r|..]
    ensures BlankBetween(s, 0, |s| - |r|)
    ensures r != [] ==> !IsJsWhitespace(r[0])
    decreases |s|
  {
    if s != [] && IsJsWhitespace(s[0]) then
      var r := TrimStart(s[1..]);
      assert forall k :: 1 <= k < |s| - |r| ==> s[k] == s[1..][k - 1];
      r
    else
      s
  }

  /** `s` without its trailing whitespace. */
  function TrimEnd(s: string): (r: string)
    ensures |r| <= |s| && r == s[..|r|]
    ensures BlankBetween(s, |r|, |s|)
    ensures r != [] ==> !IsJsWhitespace(r[|r| - 1])
    decreases |s|
  {
    if s != [] && IsJsWhitespace(s[|s| - 1]) then
      TrimEnd(s[..|s| - 1])
    else
      s
  }

  /** Whitespace between `lo` and `hi` in the suffix `s[a..]` is whitespace at `a + lo` up to `a + hi` in `s`. */
  lemma BlankInSuffix(s: string, a: nat, lo: nat, hi: nat)
    requires a <= |s| && lo <= hi <= |s| - a
    requires BlankBetween(s[a..], lo, hi)
    ensures BlankBetween(s, a + lo, a + hi)
  {
    forall k | a + lo <= k < a + hi
      ensures IsJsWhitespace(s[k])
    {
      assert s[k] == s[a..][k - a];
    }
  }

  /** Trimming both ends leaves nothing exactly when every character is whitespace. */
  lemma TrimmedEmptyIffBlank(s: string)
    ensures TrimEnd(TrimStart(s)) == [] <==> IsBlank(s)
  {
    var t := TrimStart(s);
    if t != [] {
      var a := |s| - |t|;
      assert s[a] == t[0] && !IsJsWhitespace(t[0]);
      assert !BlankBetween(t, 0, |t|);
    }
  }

  /**
   * Trimming both ends leaves the stretch of `s` that starts where the
   * leading whitespace ends, and only whitespace follows it.
   */
  lemma TrimmedStretch(s: string)
    ensures
      var t := TrimStart(s);
      var r := TrimEnd(t);
      var a := |s| - |t|;
      && a + |r| <= |s| && (forall k :: 0 <= k < |r| ==> r[k] == s[a + k])
      && BlankBetween(s, a + |r|, |s|)
  {
    var t := TrimStart(s);
    var a := |s| - |t|;
    var r := TrimEnd(t);
    BlankInSuffix(s, a, |r|, |t|);
  }

  /**
   * `s.trim()`: the stretch of `s` left between a blank prefix and a blank
   * suffix. It is empty exactly when `s` is blank, and otherwise begins and
   * ends with a character that is not whitespace.
   */
  function Trim(s: string): (r: string)
    ensures
      var a := |s| - |TrimStart(s)|;
      && a + |r| <= |s| && (forall k :: 0 <= k < |r| ==> r[k] == s[a + k])
      && BlankBetween(s, 0, a) && BlankBetween(s, a + |r|, |s|)
    ensures r == [] <==> IsBlank(s)
    ensures r != [] ==> !IsJsWhitespace(r[0]) && !IsJsWhitespace(r[|r| - 1])
  {
    TrimmedStretch(s);
    TrimmedEmptyIffBlank(s);
    TrimEnd(TrimStart(s))
  }

  /**
   * `handleSubmit` with the input holding `taskContent`, at millisecond
   * `now`: the task is added only when the trimmed text is not empty.
   */
  function HandleSubmit(b: Board, now: nat, taskContent: string): (r: Board)
    ensures IsBlank(taskContent) ==> r == b
    ensures !IsBlank(taskContent) ==> r == AddTask(b, now, taskContent)
  {
    if Trim(taskContent) != [] then AddTask(b, now, taskContent) else b
  }

  /**
   * A blank submission leaves the board as it was. This restates the first
   * clause of `HandleSubmit`'s contract as a lemma a reader can cite.
   */
  lemma BlankSubmissionIgnored(b: Board, now: nat, taskContent: string)
    requires IsBlank(taskContent)
    ensures HandleSubmit(b, now, taskContent) == b
  {
  }

  /**
   * A submission with some non-whitespace character appends one task to the
   * todo list, carrying the text exactly as typed and the id of `now`; the
   * other lists do not change. This is `HandleSubmit`'s second clause with
   * `AddTask`'s contract unfolded, kept as a lemma for readers.
   */
  lemma SubmissionAddsTask(b: Board, now: nat, taskContent: string)
    requires !IsBlank(taskContent)
    ensures
      var r := HandleSubmit(b, now, taskContent);
      && |r.todo| == |b.todo| + 1
      && r.todo[..|b.todo|] == b.todo
      && r.todo[|b.todo|] == Task(TaskId(now), taskContent)
      && r.running == b.running && r.completed == b.completed
  {
  }

  /**
   * Adding "buy milk" to an empty board and dragging it from the top of the
   * todo list to the top of the Running list leaves it alone in Running.
   */
  lemma BuyMilkScenario(now: nat)
    ensures
      var added := HandleSubmit(Initial(None), now, "buy milk");
      var drop := DropResult(Location(Todo, 0), Some(Location(Running, 0)));
      && added == Board([Task(TaskId(now), "buy milk")], [], [])
      && InRange(added, drop)
      && Dragged(added, drop) == Board([], [Task(TaskId(now), "buy milk")], [])
  {
    assert !IsJsWhitespace("buy milk"[0]);
    SubmissionAddsTask(Initial(None), now, "buy milk");
  }
}
