/** Undoing horizontal differencing at 8, 16 and 32 bits, in place. */
module PsdPredictor {
  import opened Bytes
  import opened Planes
  import Bits

  // ---- Differencing over any modulus ----

  ghost predicate Below(m: nat, row: seq<int>) { forall i :: 0 <= i < |row| ==> 0 <= row[i] < m }

  function Plus(m: nat, a: int, b: int): (r: int)
    requires m > 0
  {
    (a + b) % m
  }

  function Minus(m: nat, a: int, b: int): (r: int)
    requires m > 0
  {
    (a - b) % m
  }

  /** Running sums, wrapping at `m`. */
  function Sums(m: nat, row: seq<int>): (r: seq<int>)
    requires m > 0
    ensures |r| == |row|
  {
    if |row| <= 1 then row
    else
      var front := Sums(m, row[..|row| - 1]);
      front + [Plus(m, row[|row| - 1], front[|front| - 1])]
  }

  /** Differences from the left neighbour, wrapping at `m`; the first sample stays. */
  function Differences(m: nat, row: seq<int>): (r: seq<int>)
    requires m > 0
    ensures |r| == |row|
  {
    if |row| <= 1 then row
    else Differences(m, row[..|row| - 1]) + [Minus(m, row[|row| - 1], row[|row| - 2])]
  }

  lemma {:induction false} SumsBelow(m: nat, row: seq<int>)
    requires m > 0 && Below(m, row)
    ensures Below(m, Sums(m, row))
  {
    if |row| > 1 { SumsBelow(m, row[..|row| - 1]); }
  }

  lemma {:induction false} DifferencesBelow(m: nat, row: seq<int>)
    requires m > 0 && Below(m, row)
    ensures Below(m, Differences(m, row))
  {
    if |row| > 1 { DifferencesBelow(m, row[..|row| - 1]); }
  }

  lemma AddBack(m: nat, a: int, b: int)
    requires 0 <= a < m && 0 <= b < m
    ensures Plus(m, Minus(m, b, a), a) == b
  {
    WrapOnce(m, b - a);
    WrapOnce(m, if b >= a then b else b + m);
  }

  lemma TakeBack(m: nat, a: int, d: int)
    requires 0 <= a < m && 0 <= d < m
    ensures Minus(m, Plus(m, d, a), a) == d
  {
    WrapOnce(m, d + a);
    WrapOnce(m, if d + a < m then d else d - m);
  }

  lemma WrapOnce(m: nat, x: int)
    requires m > 0 && 0 <= x + m < 3 * m
    ensures x % m == if x < 0 then x + m else if x < m then x else x - m
  {
    if x >= m { Bits.DivModUnique(x, m, 1, x - m); }
    if 0 <= x < m { Bits.SmallMod(x, m); }
    if x < 0 { WrapUp(m, x); }
  }

  lemma WrapUp(m: nat, x: int)
    requires x < 0 <= x + m
    ensures x % m == x + m
  {
    var q := x / m;
    assert x == q * m + x % m;
    if q < -1 { Bits.MulStep(1, -q - 1, m); }
  }

  lemma {:induction false} Short(m: nat, row: seq<int>)
    requires m > 0 && |row| <= 1
    ensures Sums(m, row) == row && Differences(m, row) == row
  {
  }

  lemma {:induction false} SumsSnoc(m: nat, front: seq<int>, x: int)
    requires m > 0 && front != []
    ensures Sums(m, front + [x]) == Sums(m, front) + [Plus(m, x, Sums(m, front)[|front| - 1])]
  {
    assert (front + [x])[..|front|] == front;
  }

  lemma {:induction false} DifferencesSnoc(m: nat, front: seq<int>, x: int)
    requires m > 0 && front != []
    ensures Differences(m, front + [x]) == Differences(m, front) + [Minus(m, x, front[|front| - 1])]
  {
    assert (front + [x])[..|front|] == front;
  }

  /** Summing undoes differencing. */
  lemma {:induction false} SumsOfDifferences(m: nat, row: seq<int>)
    requires m > 0 && Below(m, row)
    ensures Sums(m, Differences(m, row)) == row
    decreases |row|
  {
    hide Plus, Minus, Sums, Differences;
    if |row| > 1 {
      var front, x := row[..|row| - 1], row[|row| - 1];
      var last := front[|front| - 1];
      SumsOfDifferences(m, front);
      DifferencesSnoc(m, front, x);
      SumsSnoc(m, Differences(m, front), Minus(m, x, last));
      AddBack(m, last, x);
      assert row == front + [x];
    } else {
      Short(m, row);
    }
  }

  /** And differencing undoes summing. */
  lemma {:induction false} DifferencesOfSums(m: nat, row: seq<int>)
    requires m > 0 && Below(m, row)
    ensures Differences(m, Sums(m, row)) == row
    decreases |row|
  {
    hide Plus, Minus, Sums, Differences;
    if |row| > 1 {
      var front, x := row[..|row| - 1], row[|row| - 1];
      var last := Sums(m, front)[|front| - 1];
      DifferencesOfSums(m, front);
      SumsBelow(m, front);
      SumsSnoc(m, front, x);
      DifferencesSnoc(m, Sums(m, front), Plus(m, x, last));
      TakeBack(m, last, x);
      assert row == front + [x];
    } else {
      Short(m, row);
    }
  }

  // ---- One scanline at each depth ----

  function AsBytes(s: seq<int>): (b: seq<byte>)
    requires forall i :: 0 <= i < |s| ==> 0 <= s[i] < 256
    ensures |b| == |s| && forall i :: 0 <= i < |s| ==> b[i] == s[i]
  {
    seq(|s|, i requires 0 <= i < |s| => s[i] as byte)
  }

  function Undone8(row: seq<byte>): (r: seq<byte>)
    ensures |r| == |row|
  {
    SumsBelow(256, row);
    AsBytes(Sums(256, row))
  }

  function Predicted8(row: seq<byte>): (r: seq<byte>)
    ensures |r| == |row|
  {
    DifferencesBelow(256, row);
    AsBytes(Differences(256, row))
  }

  lemma {:induction false} Inverse8(row: seq<byte>)
    ensures Undone8(Predicted8(row)) == row && Predicted8(Undone8(row)) == row
  {
    SumsBelow(256, row);
    DifferencesBelow(256, row);
    assert Predicted8(row) == Differences(256, row);
    assert Undone8(row) == Sums(256, row);
    SumsOfDifferences(256, row);
    DifferencesOfSums(256, row);
  }

  /** Big-endian words; a row at 16 bits has a whole number of them. */
  function Words(row: seq<byte>): (w: seq<int>)
    ensures |w| == |row| / 2
  {
    if |row| < 2 then [] else [BeU16At(row, 0)] + Words(row[2..])
  }

  function WordBytes(w: seq<int>): (row: seq<byte>)
    requires forall i :: 0 <= i < |w| ==> 0 <= w[i] < U16
    ensures |row| == 2 * |w|
  {
    if w == [] then [] else Be16(w[0]) + WordBytes(w[1..])
  }

  lemma {:induction false} WordsBelow(row: seq<byte>)
    ensures Below(U16, Words(row))
  {
    if |row| >= 2 { WordsBelow(row[2..]); }
  }

  lemma {:induction false} WordsOfBytes(w: seq<int>)
    requires Below(U16, w)
    ensures Words(WordBytes(w)) == w
  {
    if w != [] {
      var row := WordBytes(w);
      WordsOfBytes(w[1..]);
      assert row[2..] == WordBytes(w[1..]);
      assert row[0..2] == Be16(w[0]);
      ReadBe16(row, 0, w[0]);
    }
  }

  lemma {:induction false} BytesOfWords(row: seq<byte>)
    requires |row| % 2 == 0
    ensures Below(U16, Words(row)) && WordBytes(Words(row)) == row
  {
    WordsBelow(row);
    if |row| >= 2 {
      BytesOfWords(row[2..]);
      assert Be16(BeU16At(row, 0)) == row[..2];
    }
  }

  function Undone16(row: seq<byte>): (r: seq<byte>)
    ensures |r| == 2 * (|row| / 2)
  {
    WordsBelow(row);
    SumsBelow(U16, Words(row));
    WordBytes(Sums(U16, Words(row)))
  }

  function Predicted16(row: seq<byte>): (r: seq<byte>)
    ensures |r| == 2 * (|row| / 2)
  {
    WordsBelow(row);
    DifferencesBelow(U16, Words(row));
    WordBytes(Differences(U16, Words(row)))
  }

  lemma {:induction false} Inverse16(row: seq<byte>)
    requires |row| % 2 == 0
    ensures Undone16(Predicted16(row)) == row && Predicted16(Undone16(row)) == row
  {
    var w := Words(row);
    BytesOfWords(row);
    SumsBelow(U16, w);
    DifferencesBelow(U16, w);
    WordsOfBytes(Differences(U16, w));
    WordsOfBytes(Sums(U16, w));
    SumsOfDifferences(U16, w);
    DifferencesOfSums(U16, w);
  }

  /** Four byte planes as pixels. */
  function Gathered(row: seq<byte>, width: nat): (r: seq<byte>)
    requires |row| == 4 * width
    ensures |r| == |row|
  {
    InterleavedLength(row, width, 4, width);
    Interleaved(row, width, 4, width)
  }

  /** At 32 bits: bytes summed, then four byte planes become pixels. */
  function Undone32(row: seq<byte>, width: nat): (r: seq<byte>)
    requires |row| == 4 * width
    ensures |r| == |row|
  {
    Gathered(Undone8(row), width)
  }

  /** Pixels split into four byte planes, then bytes differenced. */
  function Predicted32(row: seq<byte>, width: nat): (r: seq<byte>)
    requires |row| == 4 * width
    ensures |r| == |row|
  {
    InterleavedLength(row, 4, width, 4);
    Predicted8(Interleaved(row, 4, width, 4))
  }

  lemma {:induction false} Inverse32(row: seq<byte>, width: nat)
    requires |row| == 4 * width
    ensures Undone32(Predicted32(row, width), width) == row && Predicted32(Undone32(row, width), width) == row
  {
    InterleavedLength(row, 4, width, 4);
    Inverse8(Interleaved(row, 4, width, 4));
    InterleaveTransposes(row, 4, width);
    Inverse8(row);
    InterleaveTransposes(Undone8(row), width, 4);
  }

  // ---- Planes ----

  datatype Depth = One | Eight | Sixteen | ThirtyTwo

  /** Bytes of a scanline. */
  function ScanlineBytes(width: nat, depth: Depth): (n: nat) {
    match depth
    case One => (width + 7) / 8
    case Eight => width
    case Sixteen => 2 * width
    case ThirtyTwo => 4 * width
  }

  function UndoneRow(row: seq<byte>, width: nat, depth: Depth): (r: seq<byte>)
    requires |row| == ScanlineBytes(width, depth)
    ensures |r| == |row|
  {
    match depth
    case One => row
    case Eight => Undone8(row)
    case Sixteen => Undone16(row)
    case ThirtyTwo => Undone32(row, width)
  }

  function PredictedRow(row: seq<byte>, width: nat, depth: Depth): (r: seq<byte>)
    requires |row| == ScanlineBytes(width, depth)
    ensures |r| == |row|
  {
    match depth
    case One => row
    case Eight => Predicted8(row)
    case Sixteen => Predicted16(row)
    case ThirtyTwo => Predicted32(row, width)
  }

  lemma {:induction false} RowInverse(row: seq<byte>, width: nat, depth: Depth)
    requires |row| == ScanlineBytes(width, depth)
    ensures UndoneRow(PredictedRow(row, width, depth), width, depth) == row
    ensures PredictedRow(UndoneRow(row, width, depth), width, depth) == row
  {
    match depth
    case One =>
    case Eight => Inverse8(row);
    case Sixteen => Inverse16(row);
    case ThirtyTwo => Inverse32(row, width);
  }

  /** A plane of scanlines, each undone on its own. */
  function Undone(plane: seq<byte>, width: nat, height: nat, depth: Depth): (r: seq<byte>)
    requires |plane| == height * ScanlineBytes(width, depth)
    ensures |r| == |plane|
    decreases height
  {
    if height == 0 then plane
    else
      var n := ScanlineBytes(width, depth);
      RowFits(height, n);
      UndoneRow(plane[..n], width, depth) + Undone(plane[n..], width, height - 1, depth)
  }

  function Predicted(plane: seq<byte>, width: nat, height: nat, depth: Depth): (r: seq<byte>)
    requires |plane| == height * ScanlineBytes(width, depth)
    ensures |r| == |plane|
    decreases height
  {
    if height == 0 then plane
    else
      var n := ScanlineBytes(width, depth);
      RowFits(height, n);
      PredictedRow(plane[..n], width, depth) + Predicted(plane[n..], width, height - 1, depth)
  }

  lemma RowFits(height: nat, n: nat)
    requires height > 0
    ensures n <= height * n && height * n - n == (height - 1) * n
  {
    StepProduct(height - 1, height, n);
  }

  /** Undoing the prediction is a two-sided inverse of predicting, at every depth, so it loses nothing. */
  lemma {:induction false} UndoneInverse(plane: seq<byte>, width: nat, height: nat, depth: Depth)
    requires |plane| == height * ScanlineBytes(width, depth)
    ensures Undone(Predicted(plane, width, height, depth), width, height, depth) == plane
    ensures Predicted(Undone(plane, width, height, depth), width, height, depth) == plane
    decreases height
  {
    hide UndoneRow, PredictedRow, ScanlineBytes;
    if height > 0 {
      var n := ScanlineBytes(width, depth);
      RowFits(height, n);
      RowInverse(plane[..n], width, depth);
      UndoneInverse(plane[n..], width, height - 1, depth);
      HeadAndTail(PredictedRow(plane[..n], width, depth), Predicted(plane[n..], width, height - 1, depth));
      HeadAndTail(UndoneRow(plane[..n], width, depth), Undone(plane[n..], width, height - 1, depth));
    }
  }

  lemma {:induction false} HeadAndTail(a: seq<byte>, b: seq<byte>)
    ensures (a + b)[..|a|] == a && (a + b)[|a|..] == b
  {
  }

  // ---- In place ----

  /** `was` with `row` in place of the bytes at `at`. */
  function Spliced(was: seq<byte>, at: nat, row: seq<byte>): (now: seq<byte>)
    requires at + |row| <= |was|
    ensures |now| == |was|
  {
    was[..at] + row + was[at + |row|..]
  }

  lemma {:induction false} SplicedAt(was: seq<byte>, at: nat, row: seq<byte>, i: nat)
    requires at + |row| <= |was| && i < |was|
    ensures Spliced(was, at, row)[i] == if at <= i < at + |row| then row[i - at] else was[i]
  {
  }

  lemma {:induction false} SplicedGrows(was: seq<byte>, at: nat, row: seq<byte>, x: byte)
    requires at + |row| < |was|
    ensures Spliced(was, at, row)[at + |row| := x] == Spliced(was, at, row + [x])
  {
  }

  lemma {:induction false} SplicedItself(was: seq<byte>, at: nat, n: nat)
    requires at + n <= |was|
    ensures Spliced(was, at, was[at..at + n]) == was
  {
  }

  lemma {:induction false} SumsNext(m: nat, row: seq<int>, i: nat)
    requires m > 0 && 0 < i < |row|
    ensures Sums(m, row[..i + 1]) == Sums(m, row[..i]) + [Plus(m, row[i], Sums(m, row[..i])[i - 1])]
  {
    assert row[..i + 1][..i] == row[..i];
  }

  lemma {:induction false} Undone8Next(row: seq<byte>, i: nat)
    requires 0 < i < |row|
    ensures 0 <= (row[i] as int + Undone8(row[..i])[i - 1]) % 256 < 256
    ensures Undone8(row[..i + 1]) == Undone8(row[..i]) + [(row[i] as int + Undone8(row[..i])[i - 1]) % 256]
  {
    SumsBelow(256, row[..i]);
    SumsBelow(256, row[..i + 1]);
    SumsNext(256, row, i);
  }

  /** One more byte of a scanline summed. */
  lemma {:induction false} SumStep(was: seq<byte>, at: nat, n: nat, i: nat)
    requires at + n <= |was| && 0 < i < n
    ensures
      var row := was[at..at + n];
      var now := Spliced(was, at, Undone8(row[..i]));
      && 0 <= (now[at + i] as int + now[at + i - 1]) % 256 < 256
      && now[at + i := (now[at + i] as int + now[at + i - 1]) % 256] == Spliced(was, at, Undone8(row[..i + 1]))
  {
    hide Undone8, Spliced;
    var row := was[at..at + n];
    Undone8Next(row, i);
    SplicedAt(was, at, Undone8(row[..i]), at + i);
    SplicedAt(was, at, Undone8(row[..i]), at + i - 1);
    SplicedGrows(was, at, Undone8(row[..i]), (row[i] as int + Undone8(row[..i])[i - 1]) % 256);
  }

  lemma {:induction false} FirstStays(row: seq<byte>)
    ensures |row| <= 1 ==> Undone8(row) == row
    ensures |row| > 1 ==> Undone8(row[..1]) == [row[0]]
  {
  }

  /** Adds up a scanline's bytes where they are. */
  method SumBytes(plane: array<byte>, at: nat, n: nat)
    requires at + n <= plane.Length
    modifies plane
    ensures plane[..] == Spliced(old(plane[..]), at, Undone8(old(plane[at..at + n])))
  {
    hide Undone8, Spliced;
    ghost var was, row := plane[..], plane[at..at + n];
    FirstStays(row);
    SplicedItself(was, at, n);
    if n <= 1 { return; }
    SplicedItself(was, at, 1);
    assert row[..1] == [row[0]] == was[at..at + 1];
    var i := 1;
    while i < n
      invariant 1 <= i <= n
      invariant plane[..] == Spliced(was, at, Undone8(row[..i]))
    {
      SumStep(was, at, n, i);
      plane[at + i] := (plane[at + i] as int + plane[at + i - 1]) % 256;
      i := i + 1;
    }
    assert row[..i] == row;
  }

  // ---- 16 bits ----

  lemma {:induction false} WordsTail(row: seq<byte>, i: nat)
    requires 2 * i + 2 <= |row|
    ensures Words(row)[i] == BeU16At(row, 2 * i)
  {
    if i > 0 {
      WordsTail(row[2..], i - 1);
      assert Words(row)[i] == Words(row[2..])[i - 1];
      assert row[2..][2 * (i - 1)] == row[2 * i] && row[2..][2 * (i - 1) + 1] == row[2 * i + 1];
    }
  }

  /** The first `i` words summed. */
  function SummedWords(row: seq<byte>, i: nat): (w: seq<int>)
    requires 2 * i <= |row|
    ensures |w| == i && Below(U16, w)
  {
    WordsBelow(row);
    SumsBelow(U16, Words(row)[..i]);
    Sums(U16, Words(row)[..i])
  }

  lemma {:induction false} WordBytesSnoc(w: seq<int>, x: int)
    requires Below(U16, w) && 0 <= x < U16
    ensures Below(U16, w + [x]) && WordBytes(w + [x]) == WordBytes(w) + Be16(x)
  {
    if w == [] {
      assert [x][1..] == [] && [] + [x] == [x];
      assert WordBytes([x]) == Be16(x) + WordBytes([]);
    } else {
      WordBytesSnoc(w[1..], x);
      assert (w + [x])[1..] == w[1..] + [x];
    }
  }

  lemma {:induction false} WordStep(row: seq<byte>, i: nat)
    requires 0 < i && 2 * i + 2 <= |row|
    ensures
      var prev := SummedWords(row, i)[i - 1];
      SummedWords(row, i + 1) == SummedWords(row, i) + [(BeU16At(row, 2 * i) + prev) % U16]
  {
    WordsTail(row, i);
    SumsNext(U16, Words(row), i);
  }

  lemma {:induction false} SplicedGrowsTwo(was: seq<byte>, at: nat, row: seq<byte>, x: byte, y: byte)
    requires at + |row| + 1 < |was|
    ensures Spliced(was, at, row)[at + |row| := x][at + |row| + 1 := y] == Spliced(was, at, row + [x, y])
  {
    SplicedGrows(was, at, row, x);
    SplicedGrows(was, at, row + [x], y);
    assert (row + [x]) + [y] == row + [x, y];
  }

  /** The word after those done is the scanline's own. */
  lemma {:induction false} WordHere(was: seq<byte>, at: nat, row: seq<byte>, done: seq<byte>)
    requires at + |row| <= |was| && row == was[at..at + |row|] && |done| + 2 <= |row|
    ensures
      var here := at + |done|;
      BeU16At(Spliced(was, at, done)[here..here + 2], 0) == BeU16At(row, |done|)
  {
  }

  /** Adds up a scanline's big-endian words where they are. */
  method SumWords(plane: array<byte>, at: nat, n: nat)
    requires at + 2 * n <= plane.Length
    modifies plane
    ensures plane[..] == Spliced(old(plane[..]), at, Undone16(old(plane[at..at + 2 * n])))
  {
    hide Spliced, Undone16, SummedWords, WordBytes, BeU16At;
    ghost var was, row := plane[..], plane[at..at + 2 * n];
    SplicedItself(was, at, 2 * n);
    FewWords(row);
    if n < 2 { return; }
    var prev: nat := BeU16At(plane[at..at + 2], 0);
    FirstWord(was, at, n);
    var i := 1;
    while i < n
      invariant 1 <= i <= n && prev == SummedWords(row, i)[i - 1]
      invariant plane[..] == Spliced(was, at, WordBytes(SummedWords(row, i)))
    {
      ghost var done := WordBytes(SummedWords(row, i));
      WordHere(was, at, row, done);
      var here := BeU16At(plane[..][at + 2 * i..at + 2 * i + 2], 0);
      WordStep(row, i);
      prev := (prev + here) % U16;
      WordBytesSnoc(SummedWords(row, i), prev);
      var b := Be16(prev);
      SplicedGrowsTwo(was, at, done, b[0], b[1]);
      plane[at + 2 * i] := b[0];
      plane[at + 2 * i + 1] := b[1];
      assert b == [b[0], b[1]];
      i := i + 1;
    }
    AllWords(row);
  }

  lemma {:induction false} FewWords(row: seq<byte>)
    ensures |row| == 0 || |row| == 2 ==> Undone16(row) == row
  {
    if |row| == 2 { BytesOfWords(row); }
  }

  lemma {:induction false} FirstWord(was: seq<byte>, at: nat, n: nat)
    requires n >= 2 && at + 2 * n <= |was|
    ensures SummedWords(was[at..at + 2 * n], 1) == [BeU16At(was[at..at + 2], 0)]
    ensures was == Spliced(was, at, WordBytes(SummedWords(was[at..at + 2 * n], 1)))
  {
    var (row, two) := (was[at..at + 2 * n], was[at..at + 2]);
    WordsTail(row, 0);
    assert Words(row)[..1] == [BeU16At(row, 0)];
    BytesOfWords(two);
    assert Words(two) == [BeU16At(two, 0)] + Words(two[2..]);
    assert Words(two[2..]) == [];
    SplicedItself(was, at, 2);
  }

  lemma {:induction false} AllWords(row: seq<byte>)
    requires |row| % 2 == 0
    ensures WordBytes(SummedWords(row, |row| / 2)) == Undone16(row)
  {
    assert Words(row)[..|row| / 2] == Words(row);
  }

  // ---- 32 bits ----

  lemma {:induction false} FourOf(s: seq<byte>, width: nat, x: nat)
    requires |s| == 4 * width && x < width
    ensures Pixel(s, width, 4, x) == [s[x], s[width + x], s[width * 2 + x], s[width * 3 + x]]
  {
    var p := Pixel(s, width, 4, x);
    assert p[0] == s[0 * width + x] && p[1] == s[1 * width + x] && p[2] == s[2 * width + x] && p[3] == s[3 * width + x];
  }

  lemma {:induction false} NoneGathered(s: seq<byte>, width: nat)
    requires |s| == 4 * width
    ensures Interleaved(s, width, 4, 0) == []
  {
  }

  /** One more pixel of four bytes. */
  lemma {:induction false} GatheredNext(s: seq<byte>, width: nat, x: nat)
    requires |s| == 4 * width && x < width
    ensures |Interleaved(s, width, 4, x)| == 4 * x
    ensures Interleaved(s, width, 4, x + 1)
         == Interleaved(s, width, 4, x) + [s[x], s[width + x], s[width * 2 + x], s[width * 3 + x]]
  {
    hide Pixel;
    FourOf(s, width, x);
    InterleavedLength(s, width, 4, x);
  }

  lemma {:induction false} SplicedGrowsFour(was: seq<byte>, at: nat, row: seq<byte>, a: byte, b: byte, c: byte, d: byte)
    requires at + |row| + 3 < |was|
    ensures
      var i := at + |row|;
      Spliced(was, at, row)[i := a][i + 1 := b][i + 2 := c][i + 3 := d] == Spliced(was, at, row + [a, b, c, d])
  {
    SplicedGrowsTwo(was, at, row, a, b);
    SplicedGrowsTwo(was, at, row + [a, b], c, d);
    assert (row + [a, b]) + [c, d] == row + [a, b, c, d];
  }

  /** Four byte planes of a scanline become pixels, through a copy. */
  method GatherBytes(plane: array<byte>, at: nat, width: nat)
    requires at + 4 * width <= plane.Length
    modifies plane
    ensures plane[..] == Spliced(old(plane[..]), at, Gathered(old(plane[at..at + 4 * width]), width))
  {
    hide Spliced, Interleaved;
    ghost var was := plane[..];
    var scratch := plane[at..at + 4 * width];
    SplicedItself(was, at, 0);
    NoneGathered(scratch, width);
    assert was[at..at] == [];
    var x := 0;
    while x < width
      invariant 0 <= x <= width
      invariant |Interleaved(scratch, width, 4, x)| == 4 * x
      invariant plane[..] == Spliced(was, at, Interleaved(scratch, width, 4, x))
    {
      GatheredNext(scratch, width, x);
      SplicedGrowsFour(was, at, Interleaved(scratch, width, 4, x), scratch[x], scratch[width + x],
        scratch[width * 2 + x], scratch[width * 3 + x]);
      plane[at + x * 4] := scratch[x];
      plane[at + x * 4 + 1] := scratch[width + x];
      plane[at + x * 4 + 2] := scratch[width * 2 + x];
      plane[at + x * 4 + 3] := scratch[width * 3 + x];
      x := x + 1;
    }
  }

  lemma {:induction false} SplicedTwice(was: seq<byte>, at: nat, row: seq<byte>, again: seq<byte>)
    requires at + |row| <= |was| && |again| == |row|
    ensures Spliced(was, at, row)[at..at + |row|] == row
    ensures Spliced(Spliced(was, at, row), at, again) == Spliced(was, at, again)
  {
  }

  /** One scanline, whatever the depth. */
  method UndoRow(plane: array<byte>, at: nat, width: nat, depth: Depth)
    requires at + ScanlineBytes(width, depth) <= plane.Length
    modifies plane
    ensures plane[..] ==
      Spliced(old(plane[..]), at, UndoneRow(old(plane[at..at + ScanlineBytes(width, depth)]), width, depth))
  {
    hide Spliced, Undone8, Undone16, Gathered;
    ghost var was := plane[..];
    match depth
    case One => SplicedItself(was, at, ScanlineBytes(width, depth));
    case Eight => SumBytes(plane, at, width);
    case Sixteen => SumWords(plane, at, width);
    case ThirtyTwo =>
      ghost var row := plane[at..at + 4 * width];
      SumBytes(plane, at, 4 * width);
      SplicedTwice(was, at, Undone8(row), Gathered(Undone8(row), width));
      GatherBytes(plane, at, width);
  }

  /** What is left to undo lies between `at` and `end`. */
  ghost predicate Halfway(now: seq<byte>, at: nat, end: nat, width: nat, left: nat, depth: Depth, target: seq<byte>) {
    && at <= end <= |now| && end - at == left * ScanlineBytes(width, depth)
    && now[..at] + Undone(now[at..end], width, left, depth) + now[end..] == target
  }

  lemma {:induction false} RowUndone(now: seq<byte>, at: nat, end: nat, width: nat, left: nat, depth: Depth,
      target: seq<byte>)
    requires Halfway(now, at, end, width, left, depth, target) && left > 0
    ensures at + ScanlineBytes(width, depth) <= end <= |now|
    ensures
      var n := ScanlineBytes(width, depth);
      Halfway(Spliced(now, at, UndoneRow(now[at..at + n], width, depth)), at + n, end, width, left - 1, depth, target)
  {
    hide UndoneRow, ScanlineBytes;
    var n := ScanlineBytes(width, depth);
    RowFits(left, n);
    var row := UndoneRow(now[at..at + n], width, depth);
    var later := Spliced(now, at, row);
    assert now[at..end][..n] == now[at..at + n] && now[at..end][n..] == now[at + n..end];
    assert later[..at + n] == now[..at] + row;
    assert later[at + n..end] == now[at + n..end] && later[end..] == now[end..];
    Assoc(now[..at], row, Undone(now[at + n..end], width, left - 1, depth));
  }

  lemma {:induction false} HalfwayStarts(now: seq<byte>, at: nat, end: nat, width: nat, height: nat, depth: Depth)
    requires at <= end <= |now| && end - at == height * ScanlineBytes(width, depth)
    ensures Halfway(now, at, end, width, height, depth, Spliced(now, at, Undone(now[at..end], width, height, depth)))
  {
    hide Undone, ScanlineBytes;
  }

  lemma {:induction false} HalfwayEnds(now: seq<byte>, at: nat, end: nat, width: nat, depth: Depth, target: seq<byte>)
    requires Halfway(now, at, end, width, 0, depth, target)
    ensures now == target
  {
    assert now[at..end] == [] && now[..at] + [] + now[end..] == now;
  }

  /** `apply_zip_prediction`: the plane at `start` undone scanline by scanline, in place. */
  method ApplyZipPrediction(buf: array<byte>, start: nat, width: nat, height: nat, depth: Depth)
    requires start + height * ScanlineBytes(width, depth) <= buf.Length
    modifies buf
    ensures buf[..] == Spliced(old(buf[..]), start,
                         Undone(old(buf[start..start + height * ScanlineBytes(width, depth)]), width, height, depth))
  {
    hide Halfway, Undone, UndoneRow, Spliced, ScanlineBytes;
    var end := start + height * ScanlineBytes(width, depth);
    ghost var target := Spliced(buf[..], start, Undone(buf[start..end], width, height, depth));
    HalfwayStarts(buf[..], start, end, width, height, depth);
    assert buf[..][start..end] == buf[start..end];
    var y: nat, at: nat := 0, start;
    while y < height
      invariant y <= height && Halfway(buf[..], at, end, width, height - y, depth, target)
    {
      RowUndone(buf[..], at, end, width, height - y, depth, target);
      assert buf[..][at..at + ScanlineBytes(width, depth)] == buf[at..at + ScanlineBytes(width, depth)];
      UndoRow(buf, at, width, depth);
      at := at + ScanlineBytes(width, depth);
      y := y + 1;
    }
    HalfwayEnds(buf[..], at, end, width, depth, target);
  }
}
