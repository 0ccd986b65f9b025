/** The Python command-line editor (NightNote_25.0708.1.py) as an object whose
    fields are the module's globals. Each command updates the fields in place
    and is proved to leave exactly the state that the matching function of
    PyState describes; the properties of the commands are proved there. */
module PyEditor {
  import opened LineEdit
  import opened PyState

  /** The `input()` loop of `insert` and `append`: collect lines until one
      reads "."; running out of input (EOFError) cancels the whole block. */
  method ReadBlock(input: seq<string>) returns (entered: Option<seq<string>>)
    ensures entered == Entered(input)
  {
    var block: seq<string> := [];
    var i := 0;
    while true
      invariant 0 <= i <= |input| && block == input[..i] && Terminator !in block
      decreases |input| - i
    {
      if i == |input| {
        assert input[..i] == input;
        return None;
      }
      var text := input[i];
      if text == Terminator {
        FirstTerminator(input, i);
        return Some(block);
      }
      block := block + [text];
      i := i + 1;
      assert block == input[..i];
    }
  }

  /** `ys` has exactly the shape `PadTo(xs, len, fill)` describes. */
  lemma PaddedIs<T>(xs: seq<T>, len: nat, fill: T, ys: seq<T>)
    requires |ys| == if |xs| < len then len else |xs|
    requires |xs| <= |ys| && ys[..|xs|] == xs
    requires forall i :: |xs| <= i < |ys| ==> ys[i] == fill
    ensures ys == PadTo(xs, len, fill)
  {
    var p := PadTo(xs, len, fill);
    forall i | 0 <= i < |ys| ensures ys[i] == p[i] {
      if i < |xs| {
        assert ys[i] == ys[..|xs|][i] && p[i] == p[..|xs|][i];
      }
    }
  }

  class Editor {
    var buffers: seq<seq<string>>
    var bufferFiles: seq<string>
    var current: nat
    var history: seq<Snapshot>
    var redoHistory: seq<Snapshot>

    /** The globals as one value. */
    function Abs(): State
      reads this
    {
      State(buffers, bufferFiles, current, history, redoHistory)
    }

    ghost predicate Valid()
      reads this
    {
      PyState.Valid(Abs())
    }

    /** The globals as the module initialises them. */
    constructor ()
      ensures Valid() && Abs() == Init()
    {
      buffers := [[]];
      bufferFiles := [""];
      current := 0;
      history := [];
      redoHistory := [];
    }

    method SaveState()
      requires Valid()
      modifies this
      ensures Valid() && Abs() == Saved(old(Abs()))
    {
      if |history| >= MAX_HISTORY {
        history := history[1..];
      }
      history := history + [Snapshot(current, buffers[current], bufferFiles[current])];
      redoHistory := [];
    }

    /** Pads `buffer_files` up to the current index before naming the file,
        so it needs no invariant; under `Valid()` the padding adds nothing. */
    method SetBufferFile(filename: string)
      modifies this
      ensures bufferFiles == PadTo(old(bufferFiles), current + 1, "")[current := filename]
      ensures buffers == old(buffers) && current == old(current)
      ensures history == old(history) && redoHistory == old(redoHistory)
      ensures old(Valid()) ==> Valid() && Abs() == FileSet(old(Abs()), filename)
    {
      var files := bufferFiles;
      while |files| <= current
        invariant |bufferFiles| <= |files| <= if |bufferFiles| < current + 1 then current + 1 else |bufferFiles|
        invariant files[..|bufferFiles|] == bufferFiles
        invariant forall i :: |bufferFiles| <= i < |files| ==> files[i] == ""
        decreases current - |files|
      {
        files := files + [""];
      }
      PaddedIs(bufferFiles, current + 1, "", files);
      bufferFiles := files[current := filename];
    }

    method Insert(n: int, input: seq<string>)
      requires Valid()
      modifies this
      ensures Valid() && Abs() == Inserted(old(Abs()), n, input)
    {
      var lines := buffers[current];
      if n < 0 || n > |lines| {
        return;
      }
      var entered := ReadBlock(input);
      if entered.None? {
        return;
      }
      if entered.value != [] {
        SaveState();
        lines := lines[..n] + entered.value + lines[n..];
        buffers := buffers[current := lines];
      }
    }

    method Append(input: seq<string>)
      requires Valid()
      modifies this
      ensures Valid() && Abs() == Appended(old(Abs()), input)
    {
      var lines := buffers[current];
      var entered := ReadBlock(input);
      if entered.None? {
        return;
      }
      if entered.value != [] {
        SaveState();
        lines := lines + entered.value;
        buffers := buffers[current := lines];
      }
    }

    method Delete(n: int)
      requires Valid()
      modifies this
      ensures Valid() && Abs() == Deleted(old(Abs()), n)
    {
      var lines := buffers[current];
      if n < 1 || n > |lines| {
        return;
      }
      SaveState();
      lines := lines[..n - 1] + lines[n..];
      buffers := buffers[current := lines];
    }

    method ClearBuffer()
      requires Valid()
      modifies this
      ensures Valid() && Abs() == Cleared(old(Abs()))
    {
      SaveState();
      buffers := buffers[current := []];
    }

    method SwitchBuffer(n: int)
      requires Valid()
      modifies this
      ensures Valid() && Abs() == Switched(old(Abs()), n)
    {
      if n < 0 {
        return;
      }
      var bs := buffers;
      while n >= |bs|
        invariant |buffers| <= |bs| <= if |buffers| < n + 1 then n + 1 else |buffers|
        invariant bs[..|buffers|] == buffers
        invariant forall i :: |buffers| <= i < |bs| ==> bs[i] == []
        decreases n - |bs|
      {
        bs := bs + [[]];
      }
      var fs := bufferFiles;
      while n >= |fs|
        invariant |bufferFiles| <= |fs| <= if |bufferFiles| < n + 1 then n + 1 else |bufferFiles|
        invariant fs[..|bufferFiles|] == bufferFiles
        invariant forall i :: |bufferFiles| <= i < |fs| ==> fs[i] == ""
        decreases n - |fs|
      {
        fs := fs + [""];
      }
      PaddedIs(buffers, n + 1, [], bs);
      PaddedIs(bufferFiles, n + 1, "", fs);
      buffers, bufferFiles, current := bs, fs, n;
    }

    /** As written: the undo and redo records keep their old buffer numbers. */
    method RemoveBuffer(n: int)
      requires Valid()
      modifies this
      ensures Valid() && Abs() == Removed(old(Abs()), n)
    {
      if n < 0 || n >= |buffers| {
        return;
      }
      if |buffers| == 1 {
        return;
      }
      DropBuffer(n);
    }

    /** Corrected: the records are renumbered with the buffers. */
    method RemoveBufferFixed(n: int)
      requires Valid()
      modifies this
      ensures Valid() && Abs() == RemovedFixed(old(Abs()), n)
    {
      if n < 0 || n >= |buffers| {
        return;
      }
      if |buffers| == 1 {
        return;
      }
      DropBuffer(n);
      history := Remap(history, n);
      redoHistory := Remap(redoHistory, n);
    }

    /** The two `pop`s of `remove_buffer` and the move of the current
        buffer number that follows them; the records are not touched. */
    method DropBuffer(n: int)
      requires Valid() && 0 <= n < |buffers| && |buffers| > 1
      modifies this
      ensures Valid() && Abs() == Removed(old(Abs()), n)
    {
      buffers := buffers[..n] + buffers[n + 1..];
      bufferFiles := bufferFiles[..n] + bufferFiles[n + 1..];
      if current == n {
        current := 0;
      } else if current > n {
        current := current - 1;
      }
    }

    /** The loop of `replace`: every line passed through `rewrite`, and the
        number of substitutions made. */
    static method RewriteLines(lines0: seq<string>, rewrite: string -> (string, nat))
      returns (lines: seq<string>, changed: nat)
      ensures lines == Rewritten(lines0, rewrite)
      ensures changed == Occurrences(lines0, rewrite)
    {
      lines := lines0;
      changed := 0;
      var i := 0;
      while i < |lines|
        invariant 0 <= i <= |lines| == |lines0|
        invariant forall j :: 0 <= j < i ==> lines[j] == RewriteLine(lines0[j], rewrite)
        invariant forall j :: i <= j < |lines| ==> lines[j] == lines0[j]
        invariant changed == Occurrences(lines0[..i], rewrite)
      {
        var (newLine, k) := rewrite(lines[i]);
        if k > 0 {
          lines := lines[i := newLine];
          changed := changed + k;
        }
        assert lines0[..i + 1][..i] == lines0[..i];
        i := i + 1;
      }
      assert lines0[..|lines|] == lines0;
    }

    /** As written: `get_lines` hands back the current buffer itself, so the
        loop rewrites the buffer in place and `save_state` runs after it.
        `rewrite` stands for `regex.subn` with the command's pattern and
        replacement. */
    method Replace(rewrite: string -> (string, nat))
      requires Valid()
      modifies this
      ensures Valid() && Abs() == Replaced(old(Abs()), rewrite)
    {
      var lines, changed := RewriteLines(buffers[current], rewrite);
      ghost var lines0 := buffers[current];
      buffers := buffers[current := lines];
      if changed > 0 {
        SaveState();
      } else {
        NoOccurrencesNoRewrite(lines0, rewrite);
      }
    }

    /** Corrected: the lines are rewritten in a copy, the buffer is recorded,
        and only then is the copy stored. */
    method ReplaceFixed(rewrite: string -> (string, nat))
      requires Valid()
      modifies this
      ensures Valid() && Abs() == ReplacedFixed(old(Abs()), rewrite)
    {
      var lines, changed := RewriteLines(buffers[current], rewrite);
      if changed > 0 {
        SaveState();
        buffers := buffers[current := lines];
      }
    }

    /** As written. `crashed` reports the IndexError that ends the program
        when the record names a buffer that no longer exists. */
    method UndoLast() returns (crashed: bool)
      requires Valid()
      modifies this
      ensures crashed == UndoCrashes(old(Abs()))
      ensures !crashed ==> Valid()
      ensures Abs() == Undone(old(Abs()))
    {
      crashed := false;
      if |history| == 0 {
        return;
      }
      var snap := history[|history| - 1];
      history := history[..|history| - 1];
      redoHistory := redoHistory + [Snapshot(current, buffers[current], bufferFiles[current])];
      current := snap.index;
      if snap.index >= |buffers| {
        crashed := true;
        return;
      }
      buffers := buffers[snap.index := snap.lines];
      bufferFiles := bufferFiles[snap.index := snap.file];
    }

    /** As written; the mirror image of `UndoLast`. */
    method Redo() returns (crashed: bool)
      requires Valid()
      modifies this
      ensures crashed == RedoCrashes(old(Abs()))
      ensures !crashed ==> Valid()
      ensures Abs() == Redone(old(Abs()))
    {
      crashed := false;
      if |redoHistory| == 0 {
        return;
      }
      var snap := redoHistory[|redoHistory| - 1];
      redoHistory := redoHistory[..|redoHistory| - 1];
      history := history + [Snapshot(current, buffers[current], bufferFiles[current])];
      current := snap.index;
      if snap.index >= |buffers| {
        crashed := true;
        return;
      }
      buffers := buffers[snap.index := snap.lines];
      bufferFiles := bufferFiles[snap.index := snap.file];
    }

    /** Corrected: the redo record is taken of the buffer being restored. */
    method UndoLastFixed()
      requires Valid() && IndicesValid(Abs())
      modifies this
      ensures Valid() && IndicesValid(Abs())
      ensures Abs() == UndoneFixed(old(Abs()))
    {
      if |history| == 0 {
        return;
      }
      var snap := history[|history| - 1];
      assert snap in history;
      var i := snap.index;
      history := history[..|history| - 1];
      redoHistory := redoHistory + [Snapshot(i, buffers[i], bufferFiles[i])];
      current := i;
      buffers := buffers[i := snap.lines];
      bufferFiles := bufferFiles[i := snap.file];
    }

    /** Corrected: the undo record is taken of the buffer being restored. */
    method RedoFixed()
      requires Valid() && IndicesValid(Abs())
      modifies this
      ensures Valid() && IndicesValid(Abs())
      ensures Abs() == RedoneFixed(old(Abs()))
    {
      if |redoHistory| == 0 {
        return;
      }
      var snap := redoHistory[|redoHistory| - 1];
      assert snap in redoHistory;
      var i := snap.index;
      redoHistory := redoHistory[..|redoHistory| - 1];
      history := history + [Snapshot(i, buffers[i], bufferFiles[i])];
      current := i;
      buffers := buffers[i := snap.lines];
      bufferFiles := bufferFiles[i := snap.file];
    }
  }
}
