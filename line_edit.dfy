/** Operations on a buffer's list of lines that both NightNote command-line
    editors share: reading an input block that ends with a line holding only
    ".", splicing lines in after a given line, and removing one line. */
module LineEdit {

  datatype Option<T> = None | Some(value: T)

  /** The input line that ends an insert or append block. */
  const Terminator: string := "."

  /** The lines typed before the first terminator line, or every line when
      the input ends without one. */
  function BeforeTerminator(input: seq<string>): (r: seq<string>)
    ensures |r| <= |input| && r == input[..|r|]
    ensures Terminator !in r
    ensures |r| < |input| ==> input[|r|] == Terminator
  {
    if input == [] || input[0] == Terminator then []
    else [input[0]] + BeforeTerminator(input[1..])
  }

  /** A prefix of the input without a terminator is part of the block. */
  lemma TerminatorFreePrefix(input: seq<string>, k: nat)
    requires k <= |input| && Terminator !in input[..k]
    ensures k <= |BeforeTerminator(input)|
  {
    forall j | 0 <= j < k ensures input[j] != Terminator {
      assert input[j] == input[..k][j];
    }
  }

  /** The block ends exactly at the first terminator. */
  lemma FirstTerminator(input: seq<string>, k: nat)
    requires k < |input| && input[k] == Terminator && Terminator !in input[..k]
    ensures BeforeTerminator(input) == input[..k]
  {
    TerminatorFreePrefix(input, k);
    var r := BeforeTerminator(input);
    assert forall j :: 0 <= j < |r| ==> r[j] != Terminator;
  }

  /** Without a terminator the block is the whole input. */
  lemma NoTerminator(input: seq<string>)
    requires Terminator !in input
    ensures BeforeTerminator(input) == input
  {
    assert input[..|input|] == input;
    TerminatorFreePrefix(input, |input|);
  }

  /** A reader that has seen `k` lines without "." and now sees another
      line that is not "." is still inside the block. */
  lemma BlockCoversNext(input: seq<string>, k: nat)
    requires k < |input| && input[k] != Terminator
    requires forall j :: 0 <= j < k ==> input[j] != Terminator
    ensures k + 1 <= |BeforeTerminator(input)|
  {
    TerminatorFreePrefix(input, k + 1);
  }

  /** A reader that stops at the end of input or at a "." line, having seen
      no "." before, has read exactly the block. */
  lemma BlockEndsAt(input: seq<string>, k: nat)
    requires k <= |input| && (k == |input| || input[k] == Terminator)
    requires forall j :: 0 <= j < k ==> input[j] != Terminator
    ensures BeforeTerminator(input) == input[..k]
  {
    if k == |input| {
      assert input[..k] == input;
      NoTerminator(input);
    } else {
      FirstTerminator(input, k);
    }
  }

  /** `added` placed after the first `n` lines (Python's `lines[n:n] = added`,
      the C editor's shift-and-copy). */
  function Splice(lines: seq<string>, n: nat, added: seq<string>): (r: seq<string>)
    requires n <= |lines|
    ensures |r| == |lines| + |added|
    ensures r[..n] == lines[..n]
    ensures r[n..n + |added|] == added
    ensures r[n + |added|..] == lines[n..]
  {
    lines[..n] + added + lines[n..]
  }

  /** Line `j` of a splice, by where it comes from. */
  lemma SpliceAt(lines: seq<string>, n: nat, added: seq<string>, j: nat)
    requires n <= |lines| && j < |lines| + |added|
    ensures Splice(lines, n, added)[j] ==
      if j < n then lines[j] else if j < n + |added| then added[j - n] else lines[j - |added|]
  {
    var r := Splice(lines, n, added);
    if j < n {
      assert r[j] == r[..n][j];
    } else if j < n + |added| {
      assert r[j] == r[n..n + |added|][j - n];
    } else {
      assert r[j] == r[n + |added|..][j - n - |added|];
    }
  }

  /** The lines without line `i` (0-based), the others keeping their order. */
  function DeleteAt(lines: seq<string>, i: nat): (r: seq<string>)
    requires i < |lines|
    ensures |r| == |lines| - 1
    ensures r[..i] == lines[..i]
    ensures r[i..] == lines[i + 1..]
  {
    lines[..i] + lines[i + 1..]
  }

  /** Line `j` after deleting line `i`. */
  lemma DeleteAtIndex(lines: seq<string>, i: nat, j: nat)
    requires i < |lines| && j < |lines| - 1
    ensures DeleteAt(lines, i)[j] == if j < i then lines[j] else lines[j + 1]
  {
    var r := DeleteAt(lines, i);
    if j < i {
      assert r[j] == r[..i][j];
    } else {
      assert r[j] == r[i..][j - i];
    }
  }

  /** Deleting a line that was just inserted gives the lines back. */
  lemma DeleteUndoesSplice(lines: seq<string>, n: nat, line: string)
    requires n <= |lines|
    ensures DeleteAt(Splice(lines, n, [line]), n) == lines
  {
    var r := DeleteAt(Splice(lines, n, [line]), n);
    forall j | 0 <= j < |lines| ensures r[j] == lines[j] {
      DeleteAtIndex(Splice(lines, n, [line]), n, j);
      SpliceAt(lines, n, [line], if j < n then j else j + 1);
    }
  }

  /** Inserting a deleted line where it was gives the lines back. */
  lemma SpliceUndoesDelete(lines: seq<string>, i: nat)
    requires i < |lines|
    ensures Splice(DeleteAt(lines, i), i, [lines[i]]) == lines
  {
    var d := DeleteAt(lines, i);
    var r := Splice(d, i, [lines[i]]);
    forall j | 0 <= j < |lines| ensures r[j] == lines[j] {
      SpliceAt(d, i, [lines[i]], j);
      if j < i { DeleteAtIndex(lines, i, j); }
      else if j > i { DeleteAtIndex(lines, i, j - 1); }
    }
  }

  /** A sequence that agrees with `lines` before `n`, with `added` from `n`
      on, and with the shifted rest of `lines` after that is the splice. */
  lemma SpliceFromParts(lines: seq<string>, n: nat, added: seq<string>, r: seq<string>)
    requires n <= |lines| && |r| == |lines| + |added|
    requires forall j :: 0 <= j < n ==> r[j] == lines[j]
    requires forall j :: 0 <= j < |added| ==> r[n + j] == added[j]
    requires forall j :: n <= j < |lines| ==> r[j + |added|] == lines[j]
    ensures r == Splice(lines, n, added)
  {
    forall j | 0 <= j < |r| ensures r[j] == Splice(lines, n, added)[j] {
      SpliceAt(lines, n, added, j);
      if n <= j < n + |added| {
        assert r[n + (j - n)] == added[j - n];
      } else if n + |added| <= j {
        assert r[(j - |added|) + |added|] == lines[j - |added|];
      }
    }
  }

  /** A sequence that agrees with `a` on its first `|a|` lines and with `b`
      after them is `a + b`. */
  lemma ConcatFromParts(a: seq<string>, b: seq<string>, r: seq<string>)
    requires |r| == |a| + |b|
    requires forall j :: 0 <= j < |a| ==> r[j] == a[j]
    requires forall j :: 0 <= j < |b| ==> r[|a| + j] == b[j]
    ensures r == a + b
  {
    forall j | 0 <= j < |r| ensures r[j] == (a + b)[j] {
      if j >= |a| {
        assert r[|a| + (j - |a|)] == b[j - |a|];
      }
    }
  }
}
