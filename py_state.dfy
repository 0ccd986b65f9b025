/** The state of the Python command-line editor (NightNote_25.0708.1.py) as a
    value, and one function per editing command giving the state the command
    leaves behind. The class in PyEditor performs the same commands in place
    and is proved against these functions. */
module PyState {
  import opened LineEdit

  /** Bound on the undo stack (`MAX_HISTORY`). */
  const MAX_HISTORY: nat := 10

  /** A whole-buffer undo record: which buffer, a copy of its lines, its file name. */
  datatype Snapshot = Snapshot(index: nat, lines: seq<string>, file: string)

  /** The module globals `buffers`, `buffer_files`, `current_buffer`,
      `history` and `redo_history`; the last element of a stack is its top. */
  datatype State = State(
    buffers: seq<seq<string>>,
    files: seq<string>,
    current: nat,
    history: seq<Snapshot>,
    redo: seq<Snapshot>)

  /** What every command keeps: one file name per buffer, the current index
      names a buffer, and the two stacks together hold at most MAX_HISTORY records. */
  ghost predicate Valid(s: State) {
    && |s.files| == |s.buffers|
    && s.current < |s.buffers|
    && |s.history| + |s.redo| <= MAX_HISTORY
  }

  /** Every undo and redo record names a buffer that exists. */
  ghost predicate IndicesValid(s: State) {
    && (forall x :: x in s.history ==> x.index < |s.buffers|)
    && (forall x :: x in s.redo ==> x.index < |s.buffers|)
  }

  /** The state at start-up: one empty buffer without a file, empty stacks. */
  function Init(): (s: State)
    ensures Valid(s) && IndicesValid(s)
    ensures |s.buffers| == 1 && s.buffers[0] == [] && s.files[0] == ""
  {
    State([[]], [""], 0, [], [])
  }

  /** The record `save_state` and the undo/redo commands take of the current buffer. */
  function CurrentSnapshot(s: State): (r: Snapshot)
    requires Valid(s)
    ensures r.index == s.current && r.index < |s.buffers|
    ensures r.lines == s.buffers[r.index] && r.file == s.files[r.index]
  {
    Snapshot(s.current, s.buffers[s.current], s.files[s.current])
  }

  /** `save_state`: evict the oldest record when the undo stack is full, push
      a copy of the current buffer, and empty the redo stack. */
  function Saved(s: State): (r: State)
    requires Valid(s)
    ensures Valid(r) && (IndicesValid(s) ==> IndicesValid(r))
    ensures r.buffers == s.buffers && r.files == s.files && r.current == s.current
    ensures r.redo == []
    ensures |r.history| == if |s.history| < MAX_HISTORY then |s.history| + 1 else MAX_HISTORY
    ensures r.history[|r.history| - 1] == CurrentSnapshot(s)
    ensures r.history[..|r.history| - 1] == s.history[|s.history| + 1 - |r.history|..]
  {
    var kept := if |s.history| >= MAX_HISTORY then s.history[1..] else s.history;
    assert forall x :: x in kept ==> x in s.history;
    s.(history := kept + [CurrentSnapshot(s)], redo := [])
  }

  /** `set_lines`: the current buffer's lines replaced, nothing else changed. */
  function WithLines(s: State, lines: seq<string>): (r: State)
    requires Valid(s)
    ensures Valid(r) && (IndicesValid(s) ==> IndicesValid(r))
    ensures |r.buffers| == |s.buffers| && r.buffers[s.current] == lines
    ensures forall b :: 0 <= b < |s.buffers| && b != s.current ==> r.buffers[b] == s.buffers[b]
    ensures r.files == s.files && r.current == s.current
    ensures r.history == s.history && r.redo == s.redo
  {
    s.(buffers := s.buffers[s.current := lines])
  }

  /** `r` differs from `s` only in the current buffer's lines and in one
      record of that buffer's previous state pushed by `save_state`. */
  ghost predicate EditOfCurrent(s: State, r: State)
    requires Valid(s)
  {
    && r.current == s.current && r.files == s.files && |r.buffers| == |s.buffers|
    && (forall b :: 0 <= b < |s.buffers| && b != s.current ==> r.buffers[b] == s.buffers[b])
    && r.history == Saved(s).history && r.redo == []
  }

  /** What an insert or append block yields in the Python editor: the lines
      before the "." line, or nothing when input ends first (EOFError cancels). */
  function Entered(input: seq<string>): (r: Option<seq<string>>)
    ensures r.Some? <==> Terminator in input
    ensures r.Some? ==> r.value == BeforeTerminator(input)
  {
    var block := BeforeTerminator(input);
    if |block| < |input| then Some(block) else None
  }

  /** `insert(n)`: insert the entered lines after line `n`. */
  function Inserted(s: State, n: int, input: seq<string>): (r: State)
    requires Valid(s)
    ensures Valid(r) && (IndicesValid(s) ==> IndicesValid(r))
    ensures
      var lines := s.buffers[s.current];
      var e := Entered(input);
      if n < 0 || n > |lines| || e.None? || e.value == [] then r == s
      else
        && EditOfCurrent(s, r)
        && r.history[|r.history| - 1] == Snapshot(s.current, lines, s.files[s.current])
        && |r.buffers[s.current]| == |lines| + |e.value|
        && r.buffers[s.current][..n] == lines[..n]
        && r.buffers[s.current][n..n + |e.value|] == e.value
        && r.buffers[s.current][n + |e.value|..] == lines[n..]
  {
    var lines := s.buffers[s.current];
    if n < 0 || n > |lines| then s
    else match Entered(input)
      case None => s
      case Some(added) => if added == [] then s else WithLines(Saved(s), Splice(lines, n, added))
  }

  /** `append`: add the entered lines after the last line. */
  function Appended(s: State, input: seq<string>): (r: State)
    requires Valid(s)
    ensures Valid(r) && (IndicesValid(s) ==> IndicesValid(r))
    ensures
      var lines := s.buffers[s.current];
      var e := Entered(input);
      if e.None? || e.value == [] then r == s
      else
        && EditOfCurrent(s, r)
        && r.history[|r.history| - 1] == Snapshot(s.current, lines, s.files[s.current])
        && |r.buffers[s.current]| == |lines| + |e.value|
        && r.buffers[s.current][..|lines|] == lines
        && r.buffers[s.current][|lines|..] == e.value
  {
    match Entered(input)
    case None => s
    case Some(added) =>
      if added == [] then s
      else
        var lines := s.buffers[s.current];
        assert (lines + added)[..|lines|] == lines && (lines + added)[|lines|..] == added;
        WithLines(Saved(s), lines + added)
  }

  /** `delete(n)`: remove line `n` (1-based). */
  function Deleted(s: State, n: int): (r: State)
    requires Valid(s)
    ensures Valid(r) && (IndicesValid(s) ==> IndicesValid(r))
    ensures
      var lines := s.buffers[s.current];
      if n < 1 || n > |lines| then r == s
      else
        && EditOfCurrent(s, r)
        && r.history[|r.history| - 1] == Snapshot(s.current, lines, s.files[s.current])
        && |r.buffers[s.current]| == |lines| - 1
        && r.buffers[s.current][..n - 1] == lines[..n - 1]
        && r.buffers[s.current][n - 1..] == lines[n..]
  {
    var lines := s.buffers[s.current];
    if n < 1 || n > |lines| then s else WithLines(Saved(s), DeleteAt(lines, n - 1))
  }

  /** `clear_buffer`: record the buffer, then empty it; the file name stays. */
  function Cleared(s: State): (r: State)
    requires Valid(s)
    ensures Valid(r) && (IndicesValid(s) ==> IndicesValid(r))
    ensures EditOfCurrent(s, r) && r.buffers[s.current] == []
    ensures |r.history| > 0 && r.history[|r.history| - 1] == CurrentSnapshot(s)
  {
    var saved := Saved(s);
    assert saved.buffers == s.buffers && |saved.history| > 0;
    WithLines(saved, [])
  }

  /** `xs` extended with `fill` until it has at least `len` elements (the
      padding `while` loops of `switch_buffer` and `set_buffer_file`). */
  function PadTo<T>(xs: seq<T>, len: nat, fill: T): (r: seq<T>)
    ensures |r| == if |xs| < len then len else |xs|
    ensures r[..|xs|] == xs
    ensures forall i :: |xs| <= i < |r| ==> r[i] == fill
  {
    if |xs| < len then xs + seq(len - |xs|, _ => fill) else xs
  }

  /** `set_buffer_file`: name the current buffer's file. */
  function FileSet(s: State, name: string): (r: State)
    requires Valid(s)
    ensures Valid(r) && (IndicesValid(s) ==> IndicesValid(r))
    ensures r == s.(files := r.files)
    ensures r.files[s.current] == name
    ensures forall b :: 0 <= b < |s.files| && b != s.current ==> r.files[b] == s.files[b]
  {
    s.(files := PadTo(s.files, s.current + 1, "")[s.current := name])
  }

  /** `switch_buffer(n)`: make buffer `n` current, creating empty buffers up to it. */
  function Switched(s: State, n: int): (r: State)
    requires Valid(s)
    ensures Valid(r) && (IndicesValid(s) ==> IndicesValid(r))
    ensures n < 0 ==> r == s
    ensures n >= 0 ==>
      && r.current == n
      && r.history == s.history && r.redo == s.redo
      && |r.buffers| == (if n < |s.buffers| then |s.buffers| else n + 1)
      && r.buffers[..|s.buffers|] == s.buffers
      && r.files[..|s.files|] == s.files
      && (forall b :: |s.buffers| <= b < |r.buffers| ==> r.buffers[b] == [] && r.files[b] == "")
  {
    if n < 0 then s
    else s.(buffers := PadTo(s.buffers, n + 1, []), files := PadTo(s.files, n + 1, ""), current := n)
  }

  /** Where a buffer other than `n` sits once buffer `n` is removed. */
  function Shifted(i: nat, n: nat): (r: nat)
    ensures r <= i <= r + 1
    ensures i != n ==> (r < n <==> i < n)
  {
    if i > n then i - 1 else i
  }

  /** Renumbering past a removed buffer `n` of `count` is one to one on the
      other buffers and lands every one of them in the shortened list. */
  lemma ShiftedRenumbers(i: nat, j: nat, n: nat, count: nat)
    requires n < count && i < count && j < count && i != n && j != n
    ensures Shifted(i, n) < count - 1
    ensures Shifted(i, n) == Shifted(j, n) <==> i == j
  {
  }

  /** `remove_buffer(n)` as written: the buffer lists lose index `n`, the
      current index is adjusted, the undo and redo stacks are left alone. */
  function Removed(s: State, n: int): (r: State)
    requires Valid(s)
    ensures Valid(r)
    ensures r.history == s.history && r.redo == s.redo
    ensures n < 0 || n >= |s.buffers| || |s.buffers| == 1 ==> r == s
    ensures 0 <= n < |s.buffers| && |s.buffers| > 1 ==>
      && |r.buffers| == |s.buffers| - 1
      && (forall i :: 0 <= i < |s.buffers| && i != n ==>
            r.buffers[Shifted(i, n)] == s.buffers[i] && r.files[Shifted(i, n)] == s.files[i])
      && (s.current == n ==> r.current == 0)
      && (s.current != n ==> r.current == Shifted(s.current, n))
      && (s.current != n ==> r.buffers[r.current] == s.buffers[s.current] && r.files[r.current] == s.files[s.current])
  {
    if n < 0 || n >= |s.buffers| || |s.buffers| == 1 then s
    else
      s.(buffers := s.buffers[..n] + s.buffers[n + 1..],
         files := s.files[..n] + s.files[n + 1..],
         current := if s.current == n then 0 else Shifted(s.current, n))
  }

  /** The records of buffer `n` dropped, the others renumbered as the buffers are. */
  function Remap(h: seq<Snapshot>, n: nat): (r: seq<Snapshot>)
    ensures |r| <= |h|
  {
    if h == [] then []
    else
      var rest := Remap(h[1..], n);
      if h[0].index == n then rest
      else [h[0].(index := Shifted(h[0].index, n))] + rest
  }

  /** Renumbering works record by record: a stack split in two is
      renumbered as its two parts are, in the same order. */
  lemma {:induction false} RemapConcat(a: seq<Snapshot>, b: seq<Snapshot>, n: nat)
    ensures Remap(a + b, n) == Remap(a, n) + Remap(b, n)
    decreases |a|
  {
    if a == [] {
      assert a + b == b;
    } else {
      var ab := a + b;
      assert ab[0] == a[0] && ab[1..] == a[1..] + b;
      RemapConcat(a[1..], b, n);
      var head := if a[0].index == n then [] else [a[0].(index := Shifted(a[0].index, n))];
      assert Remap(ab, n) == head + Remap(a[1..] + b, n);
      assert Remap(a, n) == head + Remap(a[1..], n);
    }
  }

  /** A single record of buffer `n` is dropped; any other is kept, renumbered. */
  lemma RemapSingle(x: Snapshot, n: nat)
    ensures Remap([x], n) == if x.index == n then [] else [x.(index := Shifted(x.index, n))]
  {
    assert [x][1..] == [];
  }

  /** Every renumbered record comes from a record of a buffer other than
      `n`, with its index shifted the way the buffers are. */
  lemma {:induction false} RemapOrigin(h: seq<Snapshot>, n: nat)
    ensures forall x :: x in Remap(h, n) ==>
      exists y :: y in h && y.index != n && x == y.(index := Shifted(y.index, n))
  {
    if h != [] {
      RemapOrigin(h[1..], n);
      forall x | x in Remap(h, n)
        ensures exists y :: y in h && y.index != n && x == y.(index := Shifted(y.index, n))
      {
        if h[0].index == n || x != h[0].(index := Shifted(h[0].index, n)) {
          assert x in Remap(h[1..], n);
          var y :| y in h[1..] && y.index != n && x == y.(index := Shifted(y.index, n));
          assert y in h;
        }
      }
    }
  }

  /** Records that name existing buffers still do after the renumbering. */
  lemma RemapPlaceable(h: seq<Snapshot>, n: nat, count: nat)
    ensures n < count && (forall y :: y in h ==> y.index < count) ==>
      forall x :: x in Remap(h, n) ==> x.index < count - 1
  {
    RemapOrigin(h, n);
  }

  /** Every record of a buffer other than `n` survives the renumbering. */
  lemma {:induction false} RemapKeeps(h: seq<Snapshot>, n: nat)
    ensures forall y :: y in h && y.index != n ==> y.(index := Shifted(y.index, n)) in Remap(h, n)
  {
    if h != [] {
      RemapKeeps(h[1..], n);
      forall y | y in h && y.index != n
        ensures y.(index := Shifted(y.index, n)) in Remap(h, n)
      {
        if y != h[0] {
          assert y in h[1..];
        }
      }
    }
  }

  /** When no record belongs to buffer `n`, the renumbering keeps every
      record in its place. */
  lemma {:induction false} RemapKeepsAll(h: seq<Snapshot>, n: nat)
    requires forall i :: 0 <= i < |h| ==> h[i].index != n
    ensures |Remap(h, n)| == |h|
    ensures forall i :: 0 <= i < |h| ==> Remap(h, n)[i] == h[i].(index := Shifted(h[i].index, n))
  {
    if h != [] {
      RemapKeepsAll(h[1..], n);
    }
  }

  /** A top record of another buffer stays on top, renumbered. */
  lemma {:induction false} RemapTop(h: seq<Snapshot>, n: nat)
    requires |h| > 0 && h[|h| - 1].index != n
    ensures |Remap(h, n)| > 0
    ensures Remap(h, n)[|Remap(h, n)| - 1] == h[|h| - 1].(index := Shifted(h[|h| - 1].index, n))
  {
    if |h| > 1 {
      assert h[1..][|h| - 2] == h[|h| - 1];
      RemapTop(h[1..], n);
    }
  }

  /** `remove_buffer(n)` corrected: the undo and redo records are renumbered
      along with the buffers, and those of the removed buffer dropped. */
  function RemovedFixed(s: State, n: int): (r: State)
    requires Valid(s)
    ensures Valid(r) && (IndicesValid(s) ==> IndicesValid(r))
    ensures r.buffers == Removed(s, n).buffers && r.files == Removed(s, n).files
    ensures r.current == Removed(s, n).current
    ensures n < 0 || n >= |s.buffers| || |s.buffers| == 1 ==> r == s
  {
    if n < 0 || n >= |s.buffers| || |s.buffers| == 1 then s
    else
      RemapPlaceable(s.history, n, |s.buffers|);
      RemapPlaceable(s.redo, n, |s.buffers|);
      Removed(s, n).(history := Remap(s.history, n), redo := Remap(s.redo, n))
  }

  /** The line `regex.subn` would make of `line`: the rewritten text when it
      reports at least one substitution, the line itself otherwise. */
  function RewriteLine(line: string, rewrite: string -> (string, nat)): (r: string)
    ensures rewrite(line).1 > 0 ==> r == rewrite(line).0
    ensures r != line ==> rewrite(line).1 > 0
  {
    if rewrite(line).1 > 0 then rewrite(line).0 else line
  }

  /** Every line passed through `RewriteLine`. */
  function Rewritten(lines: seq<string>, rewrite: string -> (string, nat)): (r: seq<string>)
    ensures |r| == |lines|
  {
    seq(|lines|, i requires 0 <= i < |lines| => RewriteLine(lines[i], rewrite))
  }

  /** The substitution count `replace` adds up. */
  function Occurrences(lines: seq<string>, rewrite: string -> (string, nat)): (r: nat)
    ensures r == 0 <==> forall i :: 0 <= i < |lines| ==> rewrite(lines[i]).1 == 0
  {
    if lines == [] then 0
    else Occurrences(lines[..|lines| - 1], rewrite) + rewrite(lines[|lines| - 1]).1
  }

  /** With no substitution anywhere, every line is left as it is. */
  lemma {:induction false} NoOccurrencesNoRewrite(lines: seq<string>, rewrite: string -> (string, nat))
    requires Occurrences(lines, rewrite) == 0
    ensures Rewritten(lines, rewrite) == lines
  {
    if lines != [] {
      var init := lines[..|lines| - 1];
      NoOccurrencesNoRewrite(init, rewrite);
      assert Rewritten(lines, rewrite) == Rewritten(init, rewrite) + [lines[|lines| - 1]];
      assert init + [lines[|lines| - 1]] == lines;
    }
  }

  /** `replace` as written: the lines are rewritten in the buffer itself, and
      only then is `save_state` called, so the record it pushes holds the
      rewritten text. */
  function Replaced(s: State, rewrite: string -> (string, nat)): (r: State)
    requires Valid(s)
    ensures Valid(r) && (IndicesValid(s) ==> IndicesValid(r))
    ensures Occurrences(s.buffers[s.current], rewrite) == 0 ==> r == s
    ensures Occurrences(s.buffers[s.current], rewrite) > 0 ==>
      && |r.buffers| == |s.buffers|
      && r.buffers[s.current] == Rewritten(s.buffers[s.current], rewrite)
      && (forall b :: 0 <= b < |s.buffers| && b != s.current ==> r.buffers[b] == s.buffers[b])
      && r.files == s.files && r.current == s.current && r.redo == []
      && |r.history| > 0
      && r.history[|r.history| - 1]
         == Snapshot(s.current, Rewritten(s.buffers[s.current], rewrite), s.files[s.current])
      && |r.history| == (if |s.history| < MAX_HISTORY then |s.history| + 1 else MAX_HISTORY)
      && r.history[..|r.history| - 1] == s.history[|s.history| + 1 - |r.history|..]
  {
    var lines := s.buffers[s.current];
    if Occurrences(lines, rewrite) > 0 then Saved(WithLines(s, Rewritten(lines, rewrite)))
    else s
  }

  /** `replace` corrected: the buffer is recorded before it is rewritten. */
  function ReplacedFixed(s: State, rewrite: string -> (string, nat)): (r: State)
    requires Valid(s)
    ensures Valid(r) && (IndicesValid(s) ==> IndicesValid(r))
    ensures Occurrences(s.buffers[s.current], rewrite) == 0 ==> r == s
    ensures Occurrences(s.buffers[s.current], rewrite) > 0 ==>
      EditOfCurrent(s, r) && r.buffers[s.current] == Rewritten(s.buffers[s.current], rewrite)
  {
    var lines := s.buffers[s.current];
    if Occurrences(lines, rewrite) > 0 then WithLines(Saved(s), Rewritten(lines, rewrite))
    else s
  }

  /** `undo_last` raises IndexError, which ends the program, when the record
      on top of the undo stack names a buffer that no longer exists. */
  ghost predicate UndoCrashes(s: State)
    ensures IndicesValid(s) ==> !UndoCrashes(s)
  {
    |s.history| > 0 && s.history[|s.history| - 1].index >= |s.buffers|
  }

  /** `redo` raises IndexError in the same way. */
  ghost predicate RedoCrashes(s: State)
    ensures IndicesValid(s) ==> !RedoCrashes(s)
  {
    |s.redo| > 0 && s.redo[|s.redo| - 1].index >= |s.buffers|
  }

  /** `undo_last` as written: pop the undo record, push the CURRENT buffer
      onto the redo stack, switch to the record's buffer and restore it. On a
      crash the state is the one at the point the exception was raised. */
  function Undone(s: State): (r: State)
    requires Valid(s)
    ensures |r.history| + |r.redo| == |s.history| + |s.redo|
    ensures !UndoCrashes(s) ==> Valid(r)
    ensures IndicesValid(s) ==> !UndoCrashes(s) && IndicesValid(r)
    ensures |s.history| == 0 ==> r == s
    ensures |s.history| > 0 ==>
      && r.history == s.history[..|s.history| - 1]
      && r.redo == s.redo + [CurrentSnapshot(s)]
      && r.current == s.history[|s.history| - 1].index
    ensures UndoCrashes(s) ==> r.buffers == s.buffers && r.files == s.files
    ensures !UndoCrashes(s) && |s.history| > 0 ==>
      && r.buffers == s.buffers[s.history[|s.history| - 1].index := s.history[|s.history| - 1].lines]
      && r.files == s.files[s.history[|s.history| - 1].index := s.history[|s.history| - 1].file]
  {
    if |s.history| == 0 then s
    else
      var snap := s.history[|s.history| - 1];
      var popped := s.(history := s.history[..|s.history| - 1],
                       redo := s.redo + [CurrentSnapshot(s)],
                       current := snap.index);
      if snap.index >= |s.buffers| then popped
      else popped.(buffers := s.buffers[snap.index := snap.lines],
                   files := s.files[snap.index := snap.file])
  }

  /** `redo` as written: pop the redo record, push the CURRENT buffer onto
      the undo stack, switch to the record's buffer and restore it; a crash
      leaves the state reached when the exception was raised. */
  function Redone(s: State): (r: State)
    requires Valid(s)
    ensures |r.history| + |r.redo| == |s.history| + |s.redo|
    ensures !RedoCrashes(s) ==> Valid(r)
    ensures IndicesValid(s) ==> !RedoCrashes(s) && IndicesValid(r)
    ensures |s.redo| == 0 ==> r == s
    ensures |s.redo| > 0 ==>
      && r.redo == s.redo[..|s.redo| - 1]
      && r.history == s.history + [CurrentSnapshot(s)]
      && r.current == s.redo[|s.redo| - 1].index
    ensures RedoCrashes(s) ==> r.buffers == s.buffers && r.files == s.files
    ensures !RedoCrashes(s) && |s.redo| > 0 ==>
      && r.buffers == s.buffers[s.redo[|s.redo| - 1].index := s.redo[|s.redo| - 1].lines]
      && r.files == s.files[s.redo[|s.redo| - 1].index := s.redo[|s.redo| - 1].file]
  {
    if |s.redo| == 0 then s
    else
      var snap := s.redo[|s.redo| - 1];
      var popped := s.(redo := s.redo[..|s.redo| - 1],
                       history := s.history + [CurrentSnapshot(s)],
                       current := snap.index);
      if snap.index >= |s.buffers| then popped
      else popped.(buffers := s.buffers[snap.index := snap.lines],
                   files := s.files[snap.index := snap.file])
  }

  /** `undo_last` corrected: the record pushed for redo is the one of the
      buffer being restored, not of the buffer that happened to be current. */
  function UndoneFixed(s: State): (r: State)
    requires Valid(s) && IndicesValid(s)
    ensures Valid(r) && IndicesValid(r)
    ensures |r.history| + |r.redo| == |s.history| + |s.redo|
    ensures |s.history| == 0 ==> r == s
    ensures |s.history| > 0 ==>
      var top := s.history[|s.history| - 1];
      && r.history == s.history[..|s.history| - 1]
      && r.redo == s.redo + [Snapshot(top.index, s.buffers[top.index], s.files[top.index])]
      && r.current == top.index
      && r.buffers == s.buffers[top.index := top.lines]
      && r.files == s.files[top.index := top.file]
  {
    if |s.history| == 0 then s
    else
      var snap := s.history[|s.history| - 1];
      var i := snap.index;
      s.(history := s.history[..|s.history| - 1],
         redo := s.redo + [Snapshot(i, s.buffers[i], s.files[i])],
         current := i,
         buffers := s.buffers[i := snap.lines],
         files := s.files[i := snap.file])
  }

  /** `redo` corrected in the same way. */
  function RedoneFixed(s: State): (r: State)
    requires Valid(s) && IndicesValid(s)
    ensures Valid(r) && IndicesValid(r)
    ensures |r.history| + |r.redo| == |s.history| + |s.redo|
    ensures |s.redo| == 0 ==> r == s
    ensures |s.redo| > 0 ==>
      var top := s.redo[|s.redo| - 1];
      && r.redo == s.redo[..|s.redo| - 1]
      && r.history == s.history + [Snapshot(top.index, s.buffers[top.index], s.files[top.index])]
      && r.current == top.index
      && r.buffers == s.buffers[top.index := top.lines]
      && r.files == s.files[top.index := top.file]
  {
    if |s.redo| == 0 then s
    else
      var snap := s.redo[|s.redo| - 1];
      var i := snap.index;
      s.(redo := s.redo[..|s.redo| - 1],
         history := s.history + [Snapshot(i, s.buffers[i], s.files[i])],
         current := i,
         buffers := s.buffers[i := snap.lines],
         files := s.files[i := snap.file])
  }

  // ---------------------------------------------------------------------
  // Undo and redo against the editing commands

  /** Undoing an edit of the current buffer restores every buffer, every
      file name and the current index, and keeps the edited text for redo. */
  lemma UndoRestoresEdit(s: State, r: State)
    requires Valid(s) && Valid(r) && EditOfCurrent(s, r)
    ensures !UndoCrashes(r)
    ensures Undone(r).buffers == s.buffers && Undone(r).files == s.files
    ensures Undone(r).current == s.current
    ensures Undone(r).redo == [Snapshot(s.current, r.buffers[s.current], s.files[s.current])]
  {
    var u := Undone(r);
    assert r.history[|r.history| - 1] == CurrentSnapshot(s);
    assert |u.buffers| == |s.buffers|;
    forall b | 0 <= b < |s.buffers| ensures u.buffers[b] == s.buffers[b] {
      if b != s.current {
        assert r.buffers[b] == s.buffers[b];
      }
    }
  }

  /** Deleting line `n` and inserting that line back after line `n - 1`
      gives the buffer back. */
  lemma {:induction false} DeleteThenReinsert(s: State, n: int)
    requires Valid(s) && 1 <= n <= |s.buffers[s.current]|
    requires s.buffers[s.current][n - 1] != Terminator
    ensures
      var d := Deleted(s, n);
      Inserted(d, n - 1, [s.buffers[s.current][n - 1], Terminator]).buffers[s.current] == s.buffers[s.current]
  {
    var lines := s.buffers[s.current];
    var d := Deleted(s, n);
    var input := [lines[n - 1], Terminator];
    assert Terminator !in input[..1];
    FirstTerminator(input, 1);
    assert input[..1] == [lines[n - 1]];
    assert d.buffers[s.current] == DeleteAt(lines, n - 1);
    SpliceUndoesDelete(lines, n - 1);
  }

  /** `append` is an insert after the last line. */
  lemma AppendIsInsertAtEnd(s: State, input: seq<string>)
    requires Valid(s)
    ensures Appended(s, input) == Inserted(s, |s.buffers[s.current]|, input)
  {
    var lines := s.buffers[s.current];
    if Entered(input).Some? {
      var added := Entered(input).value;
      assert Splice(lines, |lines|, added) == lines + added;
    }
  }

  /** Redo right after undo puts everything back when the undone record was
      taken of the buffer that is current. */
  lemma UndoRedoRoundTrip(s: State)
    requires Valid(s) && |s.history| > 0
    requires s.history[|s.history| - 1].index == s.current
    ensures Redone(Undone(s)) == s
  {
    var h := s.history;
    assert h[..|h| - 1] + [h[|h| - 1]] == h;
  }

  /** Undo right after redo puts everything back in the same case. */
  lemma RedoUndoRoundTrip(s: State)
    requires Valid(s) && |s.redo| > 0
    requires s.redo[|s.redo| - 1].index == s.current
    ensures Undone(Redone(s)) == s
  {
    var q := s.redo;
    assert q[..|q| - 1] + [q[|q| - 1]] == q;
  }

  /** Switching to an existing buffer only moves the current index. */
  lemma SwitchToExisting(s: State, n: int)
    requires Valid(s) && 0 <= n < |s.buffers|
    ensures Switched(s, n) == s.(current := n)
  {
    assert s.buffers[..|s.buffers|] == s.buffers;
    assert s.files[..|s.files|] == s.files;
  }

  // ---------------------------------------------------------------------
  // Finding: replace records the text it has already rewritten

  /** As written, undo after a replace puts back the rewritten lines. */
  lemma ReplaceUndoKeepsRewrite(s: State, rewrite: string -> (string, nat))
    requires Valid(s) && Occurrences(s.buffers[s.current], rewrite) > 0
    ensures !UndoCrashes(Replaced(s, rewrite))
    ensures Undone(Replaced(s, rewrite)).buffers[s.current] == Rewritten(s.buffers[s.current], rewrite)
  {
    var w := WithLines(s, Rewritten(s.buffers[s.current], rewrite));
    assert Replaced(s, rewrite) == Saved(w);
  }

  /** A buffer ["cat"] with a rule turning "cat" into "dog": after replace
      and undo the buffer still reads ["dog"]. */
  lemma ReplaceUndoExample()
    ensures
      var rule := (line: string) => if line == "cat" then ("dog", 1) else (line, 0);
      var s := State([["cat"]], [""], 0, [], []);
      Valid(s) && Undone(Replaced(s, rule)).buffers[0] == ["dog"] != s.buffers[0]
  {
    var rule := (line: string) => if line == "cat" then ("dog", 1) else (line, 0);
    var s := State([["cat"]], [""], 0, [], []);
    assert Occurrences(["cat"], rule) == Occurrences([], rule) + 1 by {
      assert ["cat"][..0] == [];
    }
    ReplaceUndoKeepsRewrite(s, rule);
    assert Rewritten(["cat"], rule) == ["dog"];
  }

  /** Corrected, undo after a replace restores the buffer as it was. */
  lemma ReplaceFixedUndoRestores(s: State, rewrite: string -> (string, nat))
    requires Valid(s) && Occurrences(s.buffers[s.current], rewrite) > 0
    ensures !UndoCrashes(ReplacedFixed(s, rewrite))
    ensures Undone(ReplacedFixed(s, rewrite)).buffers == s.buffers
    ensures Undone(ReplacedFixed(s, rewrite)).files == s.files
    ensures Undone(ReplacedFixed(s, rewrite)).current == s.current
  {
    UndoRestoresEdit(s, ReplacedFixed(s, rewrite));
  }

  // ---------------------------------------------------------------------
  // Finding: remove_buffer leaves the undo records' buffer numbers stale

  /** Buffers a, b, c with b current and an undo record of b: after removing
      buffer 0, undo writes b's old text over c. With buffers a, b and b
      current, removing buffer 0 leaves a record undo cannot place. */
  lemma RemoveLeavesStaleRecords()
    ensures
      var s := State([["a"], ["b"], ["c"]], ["", "", ""], 1, [Snapshot(1, ["b0"], "")], []);
      var t := Removed(s, 0);
      && Valid(s) && IndicesValid(s) && Valid(t) && t.buffers == [["b"], ["c"]]
      && !UndoCrashes(t) && Undone(t).buffers == [["b"], ["b0"]]
    ensures
      var s := State([["a"], ["b"]], ["", ""], 1, [Snapshot(1, ["b0"], "")], []);
      Valid(s) && IndicesValid(s) && UndoCrashes(Removed(s, 0))
  {
    var s := State([["a"], ["b"], ["c"]], ["", "", ""], 1, [Snapshot(1, ["b0"], "")], []);
    var t := Removed(s, 0);
    assert t.buffers == [["b"], ["c"]];
    var s2 := State([["a"], ["b"]], ["", ""], 1, [Snapshot(1, ["b0"], "")], []);
    assert Removed(s2, 0).buffers == [["b"]];
  }

  /** Corrected, every record of a buffer other than the removed one is
      kept, renumbered, on its stack. */
  lemma RemovedFixedKeepsRecords(s: State, n: int)
    requires Valid(s) && 0 <= n < |s.buffers| && |s.buffers| > 1
    ensures forall y :: y in s.history && y.index != n ==>
      y.(index := Shifted(y.index, n)) in RemovedFixed(s, n).history
    ensures forall y :: y in s.redo && y.index != n ==>
      y.(index := Shifted(y.index, n)) in RemovedFixed(s, n).redo
  {
    assert RemovedFixed(s, n).history == Remap(s.history, n);
    assert RemovedFixed(s, n).redo == Remap(s.redo, n);
    RemapKeeps(s.history, n);
    RemapKeeps(s.redo, n);
  }

  /** Corrected, removing a buffer leaves no record undo or redo cannot place. */
  lemma RemovedFixedKeepsRecordsPlaceable(s: State, n: int)
    requires Valid(s) && IndicesValid(s)
    ensures IndicesValid(RemovedFixed(s, n))
    ensures !UndoCrashes(RemovedFixed(s, n)) && !RedoCrashes(RemovedFixed(s, n))
  {
  }

  /** Corrected, undo right after removing a buffer other than the one the
      top record belongs to puts that record back into its buffer, found at
      the buffer's new index, and leaves every other buffer as the removal
      left it. */
  lemma RemovedFixedUndoRestores(s: State, n: int)
    requires Valid(s) && 0 <= n < |s.buffers| && |s.buffers| > 1
    requires |s.history| > 0 && s.history[|s.history| - 1].index < |s.buffers|
    requires s.history[|s.history| - 1].index != n
    ensures var top := s.history[|s.history| - 1];
      var i := Shifted(top.index, n);
      var t := Undone(RemovedFixed(s, n));
      && !UndoCrashes(RemovedFixed(s, n))
      && |t.buffers| == |s.buffers| - 1 && t.current == i
      && t.buffers[i] == top.lines && t.files[i] == top.file
      && forall b :: 0 <= b < |t.buffers| && b != i ==> t.buffers[b] == Removed(s, n).buffers[b]
  {
    var top := s.history[|s.history| - 1];
    var r := RemovedFixed(s, n);
    RemovedFixedTop(s, n);
    UndoPlacesTop(r);
  }

  /** The corrected remove keeps a top record of another buffer on top,
      renumbered, and that record names a buffer that still exists. */
  lemma RemovedFixedTop(s: State, n: int)
    requires Valid(s) && 0 <= n < |s.buffers| && |s.buffers| > 1
    requires |s.history| > 0 && s.history[|s.history| - 1].index < |s.buffers|
    requires s.history[|s.history| - 1].index != n
    ensures var top := s.history[|s.history| - 1];
      var r := RemovedFixed(s, n);
      && |r.history| > 0 && r.history[|r.history| - 1] == top.(index := Shifted(top.index, n))
      && Shifted(top.index, n) < |r.buffers|
  {
    var top := s.history[|s.history| - 1];
    var r := RemovedFixed(s, n);
    assert r.history == Remap(s.history, n);
    assert |r.buffers| == |Removed(s, n).buffers| == |s.buffers| - 1;
    RemapTop(s.history, n);
    assert r.history[|r.history| - 1] == top.(index := Shifted(top.index, n));
  }

  /** Undo with a placeable top record writes that record's lines and file
      name back at its index, makes it current, and changes nothing else. */
  lemma UndoPlacesTop(r: State)
    requires Valid(r) && |r.history| > 0 && r.history[|r.history| - 1].index < |r.buffers|
    ensures var top := r.history[|r.history| - 1];
      && !UndoCrashes(r) && Undone(r).current == top.index
      && Undone(r).buffers == r.buffers[top.index := top.lines]
      && Undone(r).files == r.files[top.index := top.file]
  {
  }

  /** The trace of `RemoveLeavesStaleRecords` with the corrected remove:
      undo puts b's old text back into b and leaves c alone. */
  lemma RemovedFixedUndoExample()
    ensures
      var s := State([["a"], ["b"], ["c"]], ["", "", ""], 1, [Snapshot(1, ["b0"], "")], []);
      Undone(RemovedFixed(s, 0)).buffers == [["b0"], ["c"]]
  {
    var s := State([["a"], ["b"], ["c"]], ["", "", ""], 1, [Snapshot(1, ["b0"], "")], []);
    assert RemovedFixed(s, 0).buffers == [["b"], ["c"]];
    assert RemovedFixed(s, 0).history == [Snapshot(0, ["b0"], "")];
  }

  // ---------------------------------------------------------------------
  // Finding: undo saves the wrong buffer for redo

  /** Start-up, append "a" to buffer 0, switch to buffer 1, undo, redo: the
      appended line is gone from every buffer and from both stacks. */
  lemma UndoRedoLosesEdit()
    ensures
      var s0 := Appended(Init(), ["a", Terminator]);
      var s1 := Switched(s0, 1);
      var r := Redone(Undone(s1));
      && s1.buffers[0] == ["a"]
      && !UndoCrashes(s1) && !RedoCrashes(Undone(s1))
      && (forall b :: b in r.buffers ==> b == [])
      && (forall x :: x in r.history + r.redo ==> x.lines == [])
  {
    var input := ["a", Terminator];
    assert input[..1] == ["a"];
    FirstTerminator(input, 1);
    assert Entered(input) == Some(["a"]);
    var s0 := Appended(Init(), input);
    assert s0.buffers == [["a"]];
    assert s0.history == [Snapshot(0, [], "")];
    var s1 := Switched(s0, 1);
    assert s1.buffers == [["a"], []] && s1.current == 1;
    var u := Undone(s1);
    assert u.buffers == [[], []] && u.redo == [Snapshot(1, [], "")];
    var r := Redone(u);
    assert r.buffers == [[], []] && r.history == [Snapshot(0, [], "")] && r.redo == [];
  }

  /** Corrected, redo right after undo restores every buffer and file name
      and both stacks, whichever buffer the undone record belongs to. */
  lemma UndoRedoFixedRoundTrip(s: State)
    requires Valid(s) && IndicesValid(s) && |s.history| > 0
    ensures RedoneFixed(UndoneFixed(s)) == s.(current := s.history[|s.history| - 1].index)
  {
    var h := s.history;
    assert h[..|h| - 1] + [h[|h| - 1]] == h;
  }

  /** Corrected, undo right after redo restores them in the same way. */
  lemma RedoUndoFixedRoundTrip(s: State)
    requires Valid(s) && IndicesValid(s) && |s.redo| > 0
    ensures UndoneFixed(RedoneFixed(s)) == s.(current := s.redo[|s.redo| - 1].index)
  {
    var q := s.redo;
    assert q[..|q| - 1] + [q[|q| - 1]] == q;
  }
}
