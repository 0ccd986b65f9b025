/** The C command-line editor (NightNote_25.0708.1.c): eight fixed buffers of
    up to MAX_LINES rows each, a line count per buffer, a file name per buffer
    and the current buffer number. A row is modelled as the C string it holds
    (the characters before its terminating NUL), so a row of the
    `char[MAX_LINE_LEN]` array holds at most MAX_LINE_LEN - 1 characters. An
    input line is what `fgets` delivered with its newline stripped. */
module CEditor {
  import opened LineEdit

  const MAX_LINES: int := 10000
  const MAX_BUFFERS: int := 8
  const MAX_LINE_LEN: int := 1024

  /** A row written with `strncpy(dst, src, MAX_LINE_LEN - 1)` followed by
      `dst[MAX_LINE_LEN - 1] = '\0'`. */
  function Trunc(line: string): (r: string)
    ensures |r| < MAX_LINE_LEN
    ensures |line| < MAX_LINE_LEN ==> r == line
  {
    if |line| < MAX_LINE_LEN then line else line[..MAX_LINE_LEN - 1]
  }

  /** A row keeps the first MAX_LINE_LEN - 1 characters of what was copied:
      all of it when it fits. */
  lemma TruncKeepsPrefix(line: string)
    ensures |Trunc(line)| == if |line| < MAX_LINE_LEN then |line| else MAX_LINE_LEN - 1
    ensures Trunc(line) == line[..|Trunc(line)|]
  {
  }

  /** Every line as a row holds it. */
  function TruncAll(lines: seq<string>): (r: seq<string>)
    ensures |r| == |lines|
    ensures forall i :: 0 <= i < |lines| ==> r[i] == Trunc(lines[i])
  {
    seq(|lines|, i requires 0 <= i < |lines| => Trunc(lines[i]))
  }

  /** The lines `insert` reads when there is room for `room` more: the block
      before the "." line, cut off once `room` lines have been read. */
  function Taken(input: seq<string>, room: nat): (r: seq<string>)
    ensures |r| <= room && |r| <= |BeforeTerminator(input)|
    ensures r == BeforeTerminator(input)[..|r|]
    ensures |r| < room ==> r == BeforeTerminator(input)
  {
    var block := BeforeTerminator(input);
    if |block| <= room then block else block[..room]
  }

  /** One more line that is not "." after a "."-free prefix, within `room`,
      is read as well. */
  lemma TakenCoversNext(input: seq<string>, room: nat, k: nat)
    requires k < room && k < |input|
    requires forall j :: 0 <= j < k ==> input[j] != Terminator
    requires input[k] != Terminator
    ensures k + 1 <= |Taken(input, room)|
  {
    TerminatorFreePrefix(input, k + 1);
  }

  /** The reading loop stops after `k` lines exactly when the room is used
      up, the input ends, or line `k` is "."; it has then read `Taken`. */
  lemma TakenIsPrefix(input: seq<string>, room: nat, k: nat)
    requires k <= room && k <= |input|
    requires forall j :: 0 <= j < k ==> input[j] != Terminator
    requires k == room || k == |input| || input[k] == Terminator
    ensures Taken(input, room) == input[..k]
  {
    TerminatorFreePrefix(input, k);
    if k < room {
      if k == |input| {
        assert input[..k] == input;
        NoTerminator(input);
      } else {
        FirstTerminator(input, k);
      }
    }
  }

  /** How many lines a bounded `insert` may read into a buffer holding
      `count` lines: the free rows, but no more than the staging array holds. */
  function StagingRoom(count: int): (r: nat)
    requires count <= MAX_LINES
    ensures r <= MAX_LINE_LEN && count + r <= MAX_LINES
    ensures r == MAX_LINE_LEN || count + r == MAX_LINES
  {
    if MAX_LINES - count < MAX_LINE_LEN then MAX_LINES - count else MAX_LINE_LEN
  }

  /** The as-written `insert` into a buffer of `count` lines after line `n`
      stages more lines than its MAX_LINE_LEN-row staging array holds. */
  predicate InsertOverruns(count: int, n: int, input: seq<string>)
    ensures InsertOverruns(count, n, input) <==>
      && 0 <= n <= count
      && count + MAX_LINE_LEN < MAX_LINES
      && |BeforeTerminator(input)| > MAX_LINE_LEN
  {
    0 <= n <= count < MAX_LINES && |Taken(input, MAX_LINES - count)| > MAX_LINE_LEN
  }

  /** The as-written `append` to a buffer of `count` lines writes a row at
      index MAX_LINES or beyond. */
  predicate AppendOverruns(count: int, input: seq<string>)
    ensures 0 <= count <= MAX_LINES ==>
      (AppendOverruns(count, input) <==> |Taken(input, MAX_LINES - count)| < |BeforeTerminator(input)|)
  {
    count + |BeforeTerminator(input)| > MAX_LINES
  }

  /** Typing 1025 lines and "." into `insert 0` on an empty buffer: the
      reading loop runs past the staging array, yet the bounded version
      takes exactly its first MAX_LINE_LEN lines. */
  lemma InsertOverrunExample()
    ensures var input := seq(MAX_LINE_LEN + 1, _ => "x") + [Terminator];
      && InsertOverruns(0, 0, input)
      && Taken(input, StagingRoom(0)) == seq(MAX_LINE_LEN, _ => "x")
  {
    var lines := seq(MAX_LINE_LEN + 1, _ => "x");
    var input := lines + [Terminator];
    assert input[..MAX_LINE_LEN + 1] == lines;
    assert Terminator !in lines by {
      forall j | 0 <= j < |lines| ensures lines[j] != Terminator {
        assert lines[j] == "x";
        assert lines[j][0] != Terminator[0];
      }
    }
    FirstTerminator(input, MAX_LINE_LEN + 1);
    assert Taken(input, StagingRoom(0)) == lines[..MAX_LINE_LEN];
  }

  /** One line appended to a full buffer: the as-written `append` writes
      row MAX_LINES, while the bounded version leaves the buffer as it is. */
  lemma AppendOverrunExample()
    ensures var input := ["x", Terminator];
      && AppendOverruns(MAX_LINES, input)
      && Taken(input, MAX_LINES - MAX_LINES) == []
  {
    var input := ["x", Terminator];
    assert input[..1] == ["x"];
    assert "x"[0] != Terminator[0];
    FirstTerminator(input, 1);
  }

  /** The size `show_buffer_size` reports: `strlen(row) + 1` summed over the lines. */
  function Bytes(lines: seq<string>): (r: nat)
    ensures r >= |lines|
    ensures lines != [] ==> r > |lines[|lines| - 1]|
  {
    if lines == [] then 0 else Bytes(lines[..|lines| - 1]) + |lines[|lines| - 1]| + 1
  }

  /** The size of two blocks of lines together is the sum of their sizes. */
  lemma {:induction false} BytesConcat(a: seq<string>, b: seq<string>)
    ensures Bytes(a + b) == Bytes(a) + Bytes(b)
    decreases |b|
  {
    if b != [] {
      var b' := b[..|b| - 1];
      assert (a + b)[..|a + b| - 1] == a + b';
      BytesConcat(a, b');
    } else {
      assert a + b == a;
    }
  }

  /** Inserting lines anywhere adds exactly their size to the total. */
  lemma SpliceSize(lines: seq<string>, n: nat, added: seq<string>)
    requires n <= |lines|
    ensures Bytes(Splice(lines, n, added)) == Bytes(lines) + Bytes(added)
  {
    assert lines == lines[..n] + lines[n..];
    BytesConcat(lines[..n], lines[n..]);
    BytesConcat(lines[..n], added);
    BytesConcat(lines[..n] + added, lines[n..]);
  }

  /** Deleting a line takes its characters and its newline off the total. */
  lemma DeleteSize(lines: seq<string>, i: nat)
    requires i < |lines|
    ensures Bytes(DeleteAt(lines, i)) == Bytes(lines) - |lines[i]| - 1
  {
    assert lines == lines[..i] + [lines[i]] + lines[i + 1..];
    BytesConcat(lines[..i], [lines[i]]);
    BytesConcat(lines[..i] + [lines[i]], lines[i + 1..]);
    BytesConcat(lines[..i], lines[i + 1..]);
    assert Bytes([lines[i]]) == Bytes([]) + |lines[i]| + 1;
  }

  /** Every line counts at least its newline and at most a full row, so the
      `int` total of a full buffer stays far below 2^31. */
  lemma {:induction false} BytesBound(lines: seq<string>)
    requires forall i :: 0 <= i < |lines| ==> |lines[i]| < MAX_LINE_LEN
    ensures |lines| <= Bytes(lines) <= |lines| * MAX_LINE_LEN
  {
    if lines != [] {
      BytesBound(lines[..|lines| - 1]);
    }
  }

  /** Every row of `buf` holds a string that fits its char array. */
  ghost predicate Fits(buf: array<string>)
    reads buf
  {
    forall i :: 0 <= i < buf.Length ==> |buf[i]| < MAX_LINE_LEN
  }

  /** The first `n` rows of `buf`. */
  ghost function Prefix(buf: array<string>, n: int): (r: seq<string>)
    reads buf
    requires 0 <= n <= buf.Length
    ensures |r| == n
    ensures forall i :: 0 <= i < n ==> r[i] == buf[i]
  {
    buf[..n]
  }

  /** Staging rows that hold the first `k` input lines, each truncated,
      are those lines truncated. */
  lemma StagedRows(staging: array<string>, input: seq<string>, k: int)
    requires 0 <= k <= staging.Length && k <= |input|
    requires forall j :: 0 <= j < k ==> staging[j] == Trunc(input[j])
    ensures staging[..k] == TruncAll(input[..k])
  {
    var truncated := TruncAll(input[..k]);
    forall j | 0 <= j < k ensures staging[..k][j] == truncated[j] {
      assert input[..k][j] == input[j];
    }
  }

  /** The reading loop of `insert`: lines go into a fresh staging array of
      MAX_LINE_LEN rows until ".", the end of input or `room` lines. */
  method ReadStaged(input: seq<string>, room: nat) returns (staging: array<string>, k: nat)
    requires |Taken(input, room)| <= MAX_LINE_LEN
    ensures fresh(staging) && staging.Length == MAX_LINE_LEN
    ensures k == |Taken(input, room)|
    ensures staging[..k] == TruncAll(Taken(input, room))
  {
    staging := new string[MAX_LINE_LEN];
    k := 0;
    while k < room
      invariant 0 <= k <= room && k <= |input|
      invariant forall j :: 0 <= j < k ==> input[j] != Terminator
      invariant forall j :: 0 <= j < k ==> staging[j] == Trunc(input[j])
    {
      if k == |input| {
        break;
      }
      var text := input[k];
      if text == Terminator {
        break;
      }
      TakenCoversNext(input, room, k);
      staging[k] := Trunc(text);
      k := k + 1;
    }
    TakenIsPrefix(input, room, k);
    StagedRows(staging, input, k);
  }

  /** The shift loop of `insert`: rows `n..lines-1` of a buffer move up by
      `k`, the top row first, so no row is overwritten before it has moved. */
  method ShiftUp(buf: array<string>, n: int, lines: int, k: int)
    requires Fits(buf) && 0 <= n <= lines && 0 <= k && lines + k <= buf.Length
    modifies buf
    ensures Fits(buf)
    ensures forall j :: 0 <= j < n ==> buf[j] == old(buf[j])
    ensures forall j :: n <= j < lines ==> buf[j + k] == old(buf[j])
  {
    var i := lines - 1;
    while i >= n
      invariant n - 1 <= i <= lines - 1
      invariant Fits(buf)
      invariant forall j :: 0 <= j <= i + k ==> buf[j] == old(buf[j])
      invariant forall j :: i < j < lines ==> buf[j + k] == old(buf[j])
    {
      assert buf[i] == old(buf[i]) && |buf[i]| < MAX_LINE_LEN;
      buf[i + k] := Trunc(buf[i]);
      assert buf[i + k] == old(buf[i]);
      i := i - 1;
    }
  }

  /** The copy loop of `insert`: staged rows `0..k-1` go to rows `n..n+k-1`
      of a buffer, and no other row changes. */
  method CopyIn(buf: array<string>, n: int, staging: array<string>, k: int)
    requires buf != staging && Fits(buf)
    requires 0 <= n && 0 <= k <= staging.Length && n + k <= buf.Length
    modifies buf
    ensures Fits(buf)
    ensures forall j :: 0 <= j < k ==> buf[n + j] == Trunc(staging[j])
    ensures forall j :: 0 <= j < buf.Length && !(n <= j < n + k) ==> buf[j] == old(buf[j])
  {
    for t := 0 to k
      invariant Fits(buf)
      invariant forall j :: 0 <= j < t ==> buf[n + j] == Trunc(staging[j])
      invariant forall j :: 0 <= j < buf.Length && !(n <= j < n + t) ==> buf[j] == old(buf[j])
    {
      buf[n + t] := Trunc(staging[t]);
    }
  }

  /** The shift and copy loops of `insert` together: the `k` staged rows
      are placed after row `n` of the first `lines` rows of `buf`. */
  method SpliceRows(buf: array<string>, n: int, lines: int, staging: array<string>, k: int)
    requires buf != staging && Fits(buf) && 0 <= n <= lines && lines + k <= buf.Length
    requires 0 <= k <= staging.Length && forall j :: 0 <= j < k ==> |staging[j]| < MAX_LINE_LEN
    modifies buf
    ensures Fits(buf)
    ensures Prefix(buf, lines + k) == Splice(old(Prefix(buf, lines)), n, staging[..k])
  {
    ShiftUp(buf, n, lines, k);
    label shifted:
    CopyIn(buf, n, staging, k);
    ghost var before := old(Prefix(buf, lines));
    ghost var after := Prefix(buf, lines + k);
    ghost var added := staging[..k];
    forall j | 0 <= j < n ensures after[j] == before[j] {
      assert after[j] == buf[j] == old@shifted(buf[j]);
    }
    forall j | 0 <= j < |added| ensures after[n + j] == added[j] {
      assert after[n + j] == buf[n + j];
    }
    forall j | n <= j < |before| ensures after[j + |added|] == before[j] {
      assert after[j + k] == buf[j + k] == old@shifted(buf[j + k]);
    }
    SpliceFromParts(before, n, added, after);
  }

  /** The loop of `delete`: rows `i+1..lines-1` move down by one, the
      lowest first, so that row `i` is overwritten. */
  method ShiftDown(buf: array<string>, i: int, lines: int)
    requires Fits(buf) && 0 <= i < lines <= buf.Length
    modifies buf
    ensures Fits(buf)
    ensures Prefix(buf, lines - 1) == DeleteAt(old(Prefix(buf, lines)), i)
  {
    var t := i;
    while t < lines - 1
      invariant i <= t <= lines - 1
      invariant Fits(buf)
      invariant forall j :: 0 <= j < i ==> buf[j] == old(buf[j])
      invariant forall j :: i <= j < t ==> buf[j] == old(buf[j + 1])
      invariant forall j :: t <= j < buf.Length ==> buf[j] == old(buf[j])
    {
      buf[t] := buf[t + 1];
      t := t + 1;
    }
    ghost var before := old(Prefix(buf, lines));
    forall j | 0 <= j < lines - 1
      ensures Prefix(buf, lines - 1)[j] == DeleteAt(before, i)[j]
    {
      DeleteAtIndex(before, i, j);
    }
  }

  /** Rows that keep `before` below `start` and hold input lines from
      `start` to `lines` make up `before` followed by those input lines. */
  lemma WrittenAfter(buf: array<string>, start: int, lines: int, before: seq<string>, input: seq<string>)
    requires 0 <= start <= lines <= buf.Length && lines - start <= |input| && |before| == start
    requires forall j :: 0 <= j < start ==> buf[j] == before[j]
    requires forall j :: 0 <= j < lines - start ==> buf[start + j] == input[j]
    ensures Prefix(buf, lines) == before + input[..lines - start]
  {
    var block := input[..lines - start];
    forall j | 0 <= j < |block| ensures Prefix(buf, lines)[start + j] == block[j] {
      assert buf[start + j] == input[j];
    }
    ConcatFromParts(before, block, Prefix(buf, lines));
  }

  /** The reading loop of `append`: the lines before "." are written to
      the rows from `start` on, with no bound but the end of the block. */
  method WriteBlock(buf: array<string>, start: int, input: seq<string>) returns (lines: int)
    requires Fits(buf) && 0 <= start && start + |BeforeTerminator(input)| <= buf.Length
    requires forall j :: 0 <= j < |input| ==> |input[j]| < MAX_LINE_LEN
    modifies buf
    ensures Fits(buf)
    ensures lines == start + |BeforeTerminator(input)|
    ensures Prefix(buf, lines) == old(Prefix(buf, start)) + BeforeTerminator(input)
  {
    ghost var before := Prefix(buf, start);
    lines := start;
    var k := 0;
    while true
      invariant 0 <= k <= |input| && lines == start + k
      invariant forall j :: 0 <= j < k ==> input[j] != Terminator
      invariant Fits(buf)
      invariant forall j :: 0 <= j < start ==> buf[j] == before[j]
      invariant forall j :: 0 <= j < k ==> buf[start + j] == input[j]
      decreases |input| - k
    {
      if k == |input| {
        break;
      }
      var text := input[k];
      if text == Terminator {
        break;
      }
      BlockCoversNext(input, k);
      buf[lines] := text;
      assert buf[start + k] == input[k];
      lines := lines + 1;
      k := k + 1;
    }
    BlockEndsAt(input, k);
    WrittenAfter(buf, start, lines, before, input);
  }

  /** The reading loop of `append` bounded by the rows left in `buf`: the
      lines before "." are written from `start` on until `buf` is full. */
  method WriteBlockBounded(buf: array<string>, start: int, input: seq<string>) returns (lines: int)
    requires Fits(buf) && 0 <= start <= buf.Length
    requires forall j :: 0 <= j < |input| ==> |input[j]| < MAX_LINE_LEN
    modifies buf
    ensures Fits(buf)
    ensures lines == start + |Taken(input, buf.Length - start)|
    ensures Prefix(buf, lines) == old(Prefix(buf, start)) + Taken(input, buf.Length - start)
  {
    ghost var room := buf.Length - start;
    ghost var before := Prefix(buf, start);
    lines := start;
    var k := 0;
    while lines < buf.Length
      invariant 0 <= k <= |input| && lines == start + k <= buf.Length
      invariant forall j :: 0 <= j < k ==> input[j] != Terminator
      invariant Fits(buf)
      invariant forall j :: 0 <= j < start ==> buf[j] == before[j]
      invariant forall j :: 0 <= j < k ==> buf[start + j] == input[j]
      decreases buf.Length - lines
    {
      if k == |input| {
        break;
      }
      var text := input[k];
      if text == Terminator {
        break;
      }
      buf[lines] := text;
      assert buf[start + k] == input[k];
      lines := lines + 1;
      k := k + 1;
    }
    TakenIsPrefix(input, room, k);
    WrittenAfter(buf, start, lines, before, input);
  }

  class Editor {
    /** `buffers[MAX_BUFFERS][MAX_LINES]`: `rows[b]` holds buffer `b`'s rows,
        one string per row. */
    const rows: array<array<string>>
    /** `buffer_line_counts`. */
    const counts: array<int>
    /** `buffer_files`. */
    const files: array<string>
    /** `current_buffer`. */
    var current: int

    /** The arrays have the sizes the C declarations give them, the buffers
        do not share storage, every row fits its char array and every count
        is between 0 and MAX_LINES. */
    ghost predicate WellFormed()
      reads rows, rows[..], counts
    {
      && rows.Length == MAX_BUFFERS && counts.Length == MAX_BUFFERS && files.Length == MAX_BUFFERS
      && (forall b :: 0 <= b < MAX_BUFFERS ==> rows[b].Length == MAX_LINES && rows[b] != files && Fits(rows[b]))
      && (forall b, c :: 0 <= b < c < MAX_BUFFERS ==> rows[b] != rows[c])
      && (forall b :: 0 <= b < MAX_BUFFERS ==> 0 <= counts[b] <= MAX_LINES)
    }

    ghost predicate Valid()
      reads this, rows, rows[..], counts
    {
      WellFormed() && 0 <= current < MAX_BUFFERS
    }

    /** The lines of buffer `b`: its first `counts[b]` rows. */
    ghost function Lines(b: int): (r: seq<string>)
      reads rows, rows[..], counts
      requires WellFormed() && 0 <= b < MAX_BUFFERS
      ensures |r| == counts[b]
      ensures forall i :: 0 <= i < counts[b] ==> r[i] == rows[b][i]
    {
      Prefix(rows[b], counts[b])
    }

    /** The zero-initialised globals. */
    constructor ()
      ensures Valid() && current == 0
      ensures forall b :: 0 <= b < MAX_BUFFERS ==> Lines(b) == [] && files[b] == ""
    {
      var bufs: seq<array<string>> := [];
      while |bufs| < MAX_BUFFERS
        invariant |bufs| <= MAX_BUFFERS
        invariant forall b :: 0 <= b < |bufs| ==> fresh(bufs[b]) && bufs[b].Length == MAX_LINES && Fits(bufs[b])
        invariant forall b, c :: 0 <= b < c < |bufs| ==> bufs[b] != bufs[c]
      {
        var buf := new string[MAX_LINES](_ => "");
        bufs := bufs + [buf];
      }
      rows := new array<string>[MAX_BUFFERS](b requires 0 <= b < |bufs| => bufs[b]);
      counts := new int[MAX_BUFFERS](_ => 0);
      files := new string[MAX_BUFFERS](_ => "");
      current := 0;
    }

    /** Writing only to the rows of buffer `c` keeps the invariant and the
        other buffers' lines. */
    twostate lemma OnlyRowsOf(c: int)
      requires old(WellFormed()) && 0 <= c < MAX_BUFFERS
      requires unchanged(rows) && unchanged(counts)
      requires forall b :: 0 <= b < MAX_BUFFERS && b != c ==> unchanged(rows[b])
      requires Fits(rows[c])
      ensures WellFormed()
      ensures forall b :: 0 <= b < MAX_BUFFERS && b != c ==> Lines(b) == old(Lines(b))
    {
    }

    /** The count update that ends `insert`, `append` and `delete`: the first
        `lines` rows become the current buffer's lines. */
    method SetCount(lines: int)
      requires Valid() && 0 <= lines <= MAX_LINES
      modifies counts
      ensures Valid()
      ensures forall b :: 0 <= b < MAX_BUFFERS && b != current ==> Lines(b) == old(Lines(b))
      ensures Lines(current) == old(Prefix(rows[current], lines))
    {
      counts[current] := lines;
    }

    /** The shift, copy and count update of `insert`: the `k` staged lines
        are placed after line `n` of the current buffer. */
    method Place(n: int, staging: array<string>, k: int)
      requires Valid() && 0 <= n <= counts[current] && 0 <= k <= staging.Length
      requires counts[current] + k <= MAX_LINES && staging != rows[current]
      requires forall j :: 0 <= j < k ==> |staging[j]| < MAX_LINE_LEN
      modifies rows[current], counts
      ensures Valid()
      ensures forall b :: 0 <= b < MAX_BUFFERS && b != current ==> Lines(b) == old(Lines(b))
      ensures Lines(current) == Splice(old(Lines(current)), n, staging[..k])
    {
      var buf := rows[current];
      var lines := counts[current];
      assert buf.Length == MAX_LINES;
      SpliceRows(buf, n, lines, staging, k);
      OnlyRowsOf(current);
      SetCount(lines + k);
    }

    /** `insert(n)`: read up to `MAX_LINES - count` lines into the staging
        array, shift rows `n..count-1` up by the number read, copy the staged
        lines into the gap. The staging array has only MAX_LINE_LEN rows and
        the reading loop does not stop there, which is why the second
        requires is needed. */
    method Insert(n: int, input: seq<string>)
      requires Valid()
      requires !InsertOverruns(counts[current], n, input)
      modifies rows[current], counts
      ensures Valid()
      ensures forall b :: 0 <= b < MAX_BUFFERS && b != current ==> Lines(b) == old(Lines(b))
      ensures Lines(current) ==
        if n < 0 || n > old(counts[current]) || old(counts[current]) >= MAX_LINES then old(Lines(current))
        else Splice(old(Lines(current)), n, TruncAll(Taken(input, MAX_LINES - old(counts[current]))))
    {
      var lines := counts[current];
      if n < 0 || n > lines {
        return;
      }
      if lines >= MAX_LINES {
        return;
      }
      var staging, k := ReadStaged(input, MAX_LINES - lines);
      if k == 0 {
        assert Splice(old(Lines(current)), n, []) == old(Lines(current));
        return;
      }
      Place(n, staging, k);
    }

    /** `insert(n)` with the reading loop also bounded by the staging
        array's MAX_LINE_LEN rows: any input is accepted, and at most
        MAX_LINE_LEN lines go in. */
    method InsertChecked(n: int, input: seq<string>)
      requires Valid()
      modifies rows[current], counts
      ensures Valid()
      ensures forall b :: 0 <= b < MAX_BUFFERS && b != current ==> Lines(b) == old(Lines(b))
      ensures Lines(current) ==
        if n < 0 || n > old(counts[current]) || old(counts[current]) >= MAX_LINES then old(Lines(current))
        else Splice(old(Lines(current)), n, TruncAll(Taken(input, StagingRoom(old(counts[current])))))
    {
      var lines := counts[current];
      if n < 0 || n > lines {
        return;
      }
      if lines >= MAX_LINES {
        return;
      }
      var staging, k := ReadStaged(input, StagingRoom(lines));
      if k == 0 {
        assert Splice(old(Lines(current)), n, []) == old(Lines(current));
        return;
      }
      Place(n, staging, k);
    }

    /** `append`: copy the lines before "." to the rows after the last one.
        The source checks no capacity, hence the last requires. */
    method Append(input: seq<string>)
      requires Valid()
      requires forall j :: 0 <= j < |input| ==> |input[j]| < MAX_LINE_LEN
      requires !AppendOverruns(counts[current], input)
      modifies rows[current], counts
      ensures Valid()
      ensures forall b :: 0 <= b < MAX_BUFFERS && b != current ==> Lines(b) == old(Lines(b))
      ensures Lines(current) == old(Lines(current)) + BeforeTerminator(input)
    {
      var buf := rows[current];
      assert buf.Length == MAX_LINES;
      var lines := WriteBlock(buf, counts[current], input);
      OnlyRowsOf(current);
      SetCount(lines);
    }

    /** `append` with the reading loop stopping once the buffer is full, as
        `select_file` does: the lines before "." that still fit go in. */
    method AppendChecked(input: seq<string>)
      requires Valid()
      requires forall j :: 0 <= j < |input| ==> |input[j]| < MAX_LINE_LEN
      modifies rows[current], counts
      ensures Valid()
      ensures forall b :: 0 <= b < MAX_BUFFERS && b != current ==> Lines(b) == old(Lines(b))
      ensures Lines(current) == old(Lines(current)) + Taken(input, MAX_LINES - old(counts[current]))
    {
      var buf := rows[current];
      assert buf.Length == MAX_LINES;
      var lines := WriteBlockBounded(buf, counts[current], input);
      OnlyRowsOf(current);
      SetCount(lines);
    }

    /** `delete(n)`: shift rows `n..count-1` down by one, then drop the count. */
    method Delete(n: int)
      requires Valid()
      modifies rows[current], counts
      ensures Valid()
      ensures forall b :: 0 <= b < MAX_BUFFERS && b != current ==> Lines(b) == old(Lines(b))
      ensures Lines(current) ==
        if n < 1 || n > old(counts[current]) then old(Lines(current))
        else DeleteAt(old(Lines(current)), n - 1)
    {
      var lines := counts[current];
      if n < 1 || n > lines {
        return;
      }
      var buf := rows[current];
      assert buf.Length == MAX_LINES;
      ShiftDown(buf, n - 1, lines);
      OnlyRowsOf(current);
      SetCount(lines - 1);
    }

    /** `clear_buffer`: the count drops to zero; rows and file name stay. */
    method ClearBuffer()
      requires Valid()
      modifies counts
      ensures Valid() && unchanged(files)
      ensures Lines(current) == []
      ensures forall b :: 0 <= b < MAX_BUFFERS && b != current ==> Lines(b) == old(Lines(b))
    {
      counts[current] := 0;
    }

    /** `switch_buffer(n)`: only 0 <= n < MAX_BUFFERS is accepted. */
    method SwitchBuffer(n: int)
      requires Valid()
      modifies this
      ensures Valid()
      ensures current == if 0 <= n < MAX_BUFFERS then n else old(current)
    {
      if n < 0 || n >= MAX_BUFFERS {
        return;
      }
      current := n;
    }

    /** `remove_buffer(n)`: buffer `n` is emptied and loses its file name;
        no other buffer moves. */
    method RemoveBuffer(n: int)
      requires Valid()
      modifies this, counts, files
      ensures Valid()
      ensures n < 0 || n >= MAX_BUFFERS ==>
        current == old(current) && unchanged(counts, files)
      ensures 0 <= n < MAX_BUFFERS ==>
        && Lines(n) == [] && files[n] == ""
        && current == (if old(current) == n then 0 else old(current))
      ensures forall b :: 0 <= b < MAX_BUFFERS && b != n ==>
        Lines(b) == old(Lines(b)) && files[b] == old(files[b])
    {
      if n < 0 || n >= MAX_BUFFERS {
        return;
      }
      counts[n] := 0;
      files[n] := "";
      if current == n {
        current := 0;
      }
    }

    /** `show_buffer_size`: the current buffer's line count and byte total. */
    method BufferSize() returns (lines: int, bytes: int)
      requires Valid()
      ensures lines == |Lines(current)|
      ensures bytes == Bytes(Lines(current))
      ensures lines <= bytes <= MAX_LINES * MAX_LINE_LEN
    {
      lines := counts[current];
      bytes := 0;
      ghost var text := Lines(current);
      for i := 0 to lines
        invariant bytes == Bytes(text[..i])
      {
        assert text[..i + 1][..i] == text[..i];
        bytes := bytes + |rows[current][i]| + 1;
      }
      assert text[..lines] == text;
      BytesBound(text);
    }
  }
}
