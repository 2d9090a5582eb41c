/** Planes of PackBits scanlines, behind a table of their lengths. */
module PsdPlanes {
  import opened Wrappers
  import opened Bytes
  import opened PsdPackBits
  import opened Planes

  datatype PlaneError = UnexpectedEof | TableOverflow | LengthOverflow | BadRow(error: RowError)

  /** Bytes of one table entry: 4 in the large format, 2 otherwise. */
  function CountSize(large: bool): (n: nat) { if large then 4 else 2 }

  /** The length of scanline `line`; 0 outside the table's bytes. */
  function LineLength(payload: seq<byte>, large: bool, line: nat): (n: nat) {
    if large then if 4 * line + 4 <= |payload| then BeU32At(payload, 4 * line) else 0
    else if 2 * line + 2 <= |payload| then BeU16At(payload, 2 * line) else 0
  }

  /** Bytes of the first `k` scanlines. */
  function LinesLength(payload: seq<byte>, large: bool, k: nat): (n: nat)
    decreases k
  {
    if k == 0 then 0 else LinesLength(payload, large, k - 1) + LineLength(payload, large, k - 1)
  }

  lemma {:induction false} LinesMonotone(payload: seq<byte>, large: bool, j: nat, k: nat)
    requires j <= k
    ensures LinesLength(payload, large, j) <= LinesLength(payload, large, k)
    decreases k
  {
    if j < k { LinesMonotone(payload, large, j, k - 1); }
  }

  /** The table: the lengths in order, four bytes each in the large format and two otherwise. */
  ghost predicate TableHeld(payload: seq<byte>, large: bool, lengths: seq<nat>) {
    forall i :: 0 <= i < |lengths| ==> EntryHeld(payload, large, i, lengths[i])
  }

  ghost predicate EntryHeld(payload: seq<byte>, large: bool, i: nat, length: nat) {
    if large then length < U32 && HoldsAt(payload, 4 * i, Be32(length))
    else length < U16 && HoldsAt(payload, 2 * i, Be16(length))
  }

  /** A table that holds these lengths is read as them, and they end where the scanlines begin. */
  lemma {:induction false} HeldTableIsRead(payload: seq<byte>, large: bool, lengths: seq<nat>, k: nat)
    requires TableHeld(payload, large, lengths) && k <= |lengths|
    ensures LinesLength(payload, large, k) == Sum(lengths[..k])
    ensures k < |lengths| ==> LineLength(payload, large, k) == lengths[k]
    ensures k * CountSize(large) == if large then 4 * k else 2 * k
    decreases k
  {
    hide BeU16At, BeU32At, Be16, Be32;
    if k < |lengths| {
      assert EntryHeld(payload, large, k, lengths[k]);
      if large { ReadBe32(payload, 4 * k, lengths[k]); } else { ReadBe16(payload, 2 * k, lengths[k]); }
    }
    if k > 0 {
      HeldTableIsRead(payload, large, lengths, k - 1);
      assert lengths[..k][..k - 1] == lengths[..k - 1];
    }
  }

  /** The source of scanline `line`, when the table starts the payload. */
  function LineSource(payload: seq<byte>, large: bool, tableBytes: nat, line: nat): (s: seq<byte>)
    requires tableBytes + LinesLength(payload, large, line + 1) <= |payload|
  {
    var start := tableBytes + LinesLength(payload, large, line);
    payload[start..start + LineLength(payload, large, line)]
  }

  /** The expansions of the first `k` scanlines, one after another. */
  function RowsOf(payload: seq<byte>, large: bool, tableBytes: nat, rowBytes: nat, k: nat): (r: Result<seq<byte>,
      PlaneError>)
    requires tableBytes + LinesLength(payload, large, k) <= |payload|
    decreases k
  {
    if k == 0 then Ok([]) else
    match RowsOf(payload, large, tableBytes, rowBytes, k - 1)
    case Err(e) => Err(e)
    case Ok(rows) =>
      match RowOf(LineSource(payload, large, tableBytes, k - 1), rowBytes)
      case Err(e) => Err(BadRow(e))
      case Ok(row) => Ok(rows + row)
  }

  /** What decoding RLE planes gives: the used rows' bytes and the bytes consumed. */
  function RlePlanes(payload: seq<byte>, large: bool, totalLines: nat, usedLines: nat, rowBytes: nat)
    : (r: Result<(seq<byte>, nat), PlaneError>)
    requires usedLines <= totalLines
  {
    var tableBytes := totalLines * CountSize(large);
    var total := tableBytes + LinesLength(payload, large, totalLines);
    if tableBytes >= U64 then Err(TableOverflow)
    else if |payload| < tableBytes then Err(UnexpectedEof)
    else if total >= U64 then Err(LengthOverflow)
    else if |payload| < total then Err(UnexpectedEof)
    else
      LinesMonotone(payload, large, usedLines, totalLines);
      match RowsOf(payload, large, tableBytes, rowBytes, usedLines)
      case Err(e) => Err(e)
      case Ok(rows) => Ok((rows, total))
  }

  /** One table entry; the table is there. */
  method ReadLength(payload: seq<byte>, large: bool, line: nat, totalLines: nat) returns (len: nat)
    requires line < totalLines && totalLines * CountSize(large) <= |payload|
    ensures len == LineLength(payload, large, line)
  {
    StepProduct(line, totalLines, CountSize(large));
    len := if large then BeU32At(payload, line * 4) else BeU16At(payload, line * 2);
  }

  /** Sums the table; stops if the sum does not fit. */
  method SumTable(payload: seq<byte>, large: bool, totalLines: nat, tableBytes: nat) returns (total: Option<nat>)
    requires tableBytes == totalLines * CountSize(large) <= |payload|
    ensures total == if tableBytes + LinesLength(payload, large, totalLines) >= U64 then None
                     else Some(tableBytes + LinesLength(payload, large, totalLines))
  {
    hide LineLength, CountSize;
    var sum, line: nat := tableBytes, 0;
    while line < totalLines
      invariant line <= totalLines && sum == tableBytes + LinesLength(payload, large, line)
    {
      var len := ReadLength(payload, large, line, totalLines);
      LinesMonotone(payload, large, line + 1, totalLines);
      if sum + len >= U64 { return None; }
      sum := sum + len;
      line := line + 1;
    }
    total := if sum >= U64 then None else Some(sum);
  }

  /** Scanlines `0..k` are in place. */
  ghost predicate RowsInPlace(buf: seq<byte>, payload: seq<byte>, large: bool, tableBytes: nat, rowBytes: nat,
      k: nat, end: nat)
    requires tableBytes + LinesLength(payload, large, k) <= |payload|
  {
    end <= |buf| && RowsOf(payload, large, tableBytes, rowBytes, k) == Ok(buf[..end])
  }

  lemma {:induction false} NothingInPlace(buf: seq<byte>, payload: seq<byte>, large: bool, tableBytes: nat,
      rowBytes: nat)
    requires tableBytes <= |payload|
    ensures LinesLength(payload, large, 0) == 0 && RowsInPlace(buf, payload, large, tableBytes, rowBytes, 0, 0)
  {
  }

  lemma {:induction false} AllInPlace(buf: seq<byte>, payload: seq<byte>, large: bool, tableBytes: nat,
      rowBytes: nat, k: nat, end: nat)
    requires tableBytes + LinesLength(payload, large, k) <= |payload|
    requires RowsInPlace(buf, payload, large, tableBytes, rowBytes, k, end)
    ensures end <= |buf| && RowsOf(payload, large, tableBytes, rowBytes, k) == Ok(buf[..end])
  {
  }

  lemma {:induction false} NextRowInPlace(was: seq<byte>, now: seq<byte>, payload: seq<byte>, large: bool,
      tableBytes: nat, rowBytes: nat, k: nat, end: nat)
    requires tableBytes + LinesLength(payload, large, k + 1) <= |payload|
    requires RowsInPlace(was, payload, large, tableBytes, rowBytes, k, end) && end + rowBytes <= |now|
    requires now[..end] == was[..end]
    requires RowOf(LineSource(payload, large, tableBytes, k), rowBytes) == Ok(now[end..end + rowBytes])
    ensures RowsInPlace(now, payload, large, tableBytes, rowBytes, k + 1, end + rowBytes)
  {
    assert now[..end + rowBytes] == now[..end] + now[end..end + rowBytes];
  }

  /**
   The RLE branch of `decode_merged_image`: every slice is in bounds once the table's
   sum is, and the buffer ends as the rows' expansions one after another.
   */
  method DecodeRlePlanes(payload: seq<byte>, large: bool, totalLines: nat, usedLines: nat, rowBytes: nat,
      buf: array<byte>)
    returns (r: Result<nat, PlaneError>)
    requires usedLines <= totalLines && buf.Length == usedLines * rowBytes
    modifies buf
    ensures match r
      case Ok(consumed) => consumed <= |payload| &&
        RlePlanes(payload, large, totalLines, usedLines, rowBytes) == Ok((buf[..], consumed))
      case Err(e) => RlePlanes(payload, large, totalLines, usedLines, rowBytes) == Err(e)
  {
    hide LinesLength, RowsOf;
    var tableBytes := totalLines * CountSize(large);
    if tableBytes >= U64 { return Err(TableOverflow); }
    if |payload| < tableBytes { return Err(UnexpectedEof); }
    var total := SumTable(payload, large, totalLines, tableBytes);
    if total.None? { return Err(LengthOverflow); }
    if |payload| < total.value { return Err(UnexpectedEof); }
    LinesMonotone(payload, large, usedLines, totalLines);
    var e := DecodeRows(payload, large, totalLines, usedLines, tableBytes, rowBytes, buf);
    if e.Some? { return Err(e.value); }
    return Ok(total.value);
  }

  method DecodeRows(payload: seq<byte>, large: bool, totalLines: nat, usedLines: nat, tableBytes: nat, rowBytes: nat,
      buf: array<byte>)
    returns (e: Option<PlaneError>)
    requires usedLines <= totalLines && buf.Length == usedLines * rowBytes
      && tableBytes == totalLines * CountSize(large)
    requires tableBytes + LinesLength(payload, large, usedLines) <= |payload|
    modifies buf
    ensures e.None? ==> RowsOf(payload, large, tableBytes, rowBytes, usedLines) == Ok(buf[..])
    ensures e.Some? ==> RowsOf(payload, large, tableBytes, rowBytes, usedLines) == Err(e.value)
  {
    hide RowOf, RowsOf, RowsInPlace, LineLength, CountSize;
    NothingInPlace(buf[..], payload, large, tableBytes, rowBytes);
    var srcPos, line: nat, at: nat := tableBytes, 0, 0;
    while line < usedLines
      invariant line <= usedLines && at == line * rowBytes <= buf.Length
      invariant srcPos == tableBytes + LinesLength(payload, large, line) <= |payload|
      invariant RowsInPlace(buf[..], payload, large, tableBytes, rowBytes, line, at)
    {
      StepProduct(line, usedLines, rowBytes);
      LinesMonotone(payload, large, line + 1, usedLines);
      var len := ReadLength(payload, large, line, totalLines);
      var src := payload[srcPos..srcPos + len];
      assert src == LineSource(payload, large, tableBytes, line);
      ghost var was := buf[..];
      var row := DecodePackBitsRow(src, buf, at, rowBytes);
      if row.Err? {
        AllInPlace(was, payload, large, tableBytes, rowBytes, line, at);
        FailsAt(payload, large, tableBytes, rowBytes, line, usedLines);
        return Some(BadRow(row.error));
      }
      NextRowInPlace(was, buf[..], payload, large, tableBytes, rowBytes, line, at);
      srcPos := srcPos + len;
      at := at + rowBytes;
      line := line + 1;
    }
    assert buf[..][..at] == buf[..];
    AllInPlace(buf[..], payload, large, tableBytes, rowBytes, line, at);
    e := None;
  }

  /** The first scanline that fails decides. */
  lemma {:induction false} FailsAt(payload: seq<byte>, large: bool, tableBytes: nat, rowBytes: nat, line: nat, k: nat)
    requires line < k && tableBytes + LinesLength(payload, large, k) <= |payload|
    requires tableBytes + LinesLength(payload, large, line + 1) <= |payload|
      && tableBytes + LinesLength(payload, large, line) <= |payload|
    requires RowsOf(payload, large, tableBytes, rowBytes, line).Ok?
    requires RowOf(LineSource(payload, large, tableBytes, line), rowBytes).Err?
    ensures RowsOf(payload, large, tableBytes, rowBytes, k)
         == Err(BadRow(RowOf(LineSource(payload, large, tableBytes, line), rowBytes).error))
    decreases k
  {
    hide RowOf, LineSource, LineLength;
    if line + 1 < k { FailsAt(payload, large, tableBytes, rowBytes, line, k - 1); }
  }

  /** The bytes of `buf` at `at` are the expansion of scanline `line`'s own slice. */
  ghost predicate HoldsRow(payload: seq<byte>, large: bool, tableBytes: nat, rowBytes: nat, line: nat,
      buf: seq<byte>, at: nat) {
    && tableBytes + LinesLength(payload, large, line + 1) <= |payload| && at + rowBytes <= |buf|
    && Unpacks(LineSource(payload, large, tableBytes, line), buf[at..at + rowBytes])
  }

  lemma {:induction false} LongerHolds(payload: seq<byte>, large: bool, tableBytes: nat, rowBytes: nat, line: nat,
      buf: seq<byte>, more: seq<byte>, at: nat)
    requires HoldsRow(payload, large, tableBytes, rowBytes, line, buf, at)
    ensures HoldsRow(payload, large, tableBytes, rowBytes, line, buf + more, at)
  {
    assert (buf + more)[at..at + rowBytes] == buf[at..at + rowBytes];
  }

  /** Row `line` of the decoded planes, where the rows before it end, is exactly the expansion of its own slice. */
  lemma {:induction false} RowAt(payload: seq<byte>, large: bool, tableBytes: nat, rowBytes: nat, k: nat, line: nat)
    requires line < k && tableBytes + LinesLength(payload, large, k) <= |payload|
    requires RowsOf(payload, large, tableBytes, rowBytes, k).Ok?
    ensures tableBytes + LinesLength(payload, large, line) <= |payload|
      && RowsOf(payload, large, tableBytes, rowBytes, line).Ok?
    ensures HoldsRow(payload, large, tableBytes, rowBytes, line, RowsOf(payload, large, tableBytes, rowBytes, k).value,
                     |RowsOf(payload, large, tableBytes, rowBytes, line).value|)
    decreases k
  {
    hide RowOf, HoldsRow, LineSource;
    var front := RowsOf(payload, large, tableBytes, rowBytes, k - 1).value;
    var row := RowOf(LineSource(payload, large, tableBytes, k - 1), rowBytes).value;
    if line < k - 1 {
      RowAt(payload, large, tableBytes, rowBytes, k - 1, line);
      LongerHolds(payload, large, tableBytes, rowBytes, line, front, row,
        |RowsOf(payload, large, tableBytes, rowBytes, line).value|);
    } else {
      LastHolds(payload, large, tableBytes, rowBytes, line, front, row);
    }
  }

  lemma {:induction false} LastHolds(payload: seq<byte>, large: bool, tableBytes: nat, rowBytes: nat, line: nat,
      front: seq<byte>, row: seq<byte>)
    requires tableBytes + LinesLength(payload, large, line + 1) <= |payload|
    requires RowOf(LineSource(payload, large, tableBytes, line), rowBytes) == Ok(row)
    ensures HoldsRow(payload, large, tableBytes, rowBytes, line, front + row, |front|)
  {
    hide RowOf, LineSource;
    AcceptedIffUnpacks(LineSource(payload, large, tableBytes, line), rowBytes, row);
    assert (front + row)[|front|..|front| + rowBytes] == row;
  }

  /** Every row is as long as it should be, so row `line` begins at `line * rowBytes`. */
  lemma {:induction false} RowsLength(payload: seq<byte>, large: bool, tableBytes: nat, rowBytes: nat, k: nat)
    requires tableBytes + LinesLength(payload, large, k) <= |payload|
    requires RowsOf(payload, large, tableBytes, rowBytes, k).Ok?
    ensures |RowsOf(payload, large, tableBytes, rowBytes, k).value| == k * rowBytes
    decreases k
  {
    hide RowOf;
    if k > 0 {
      RowsLength(payload, large, tableBytes, rowBytes, k - 1);
      var source := LineSource(payload, large, tableBytes, k - 1);
      AcceptedIffUnpacks(source, rowBytes, RowOf(source, rowBytes).value);
      StepProduct(k - 1, k, rowBytes);
    }
  }
}
