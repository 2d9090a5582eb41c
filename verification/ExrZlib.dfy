/**
 The end of a zlib stream: raw inflation into a 32 KiB wrapping window with the
 Adler-32 of RFC 1950 computed on the side, its modulus deferred over blocks.
 */
module ExrZlib {
  import opened Wrappers
  import opened Bytes
  import Bits

  const BASE: nat := 65521
  /** Bytes summed between reductions. */
  const BLOCK: nat := 5552

  newtype u32 = x: int | 0 <= x < 0x1_0000_0000

  // ---- Reference: section 8.2 of RFC 1950, one byte at a time ----

  datatype Sums = Sums(a: nat, b: nat)

  /** The two sums after `s`, reduced after every byte. */
  function Rfc(s0: Sums, s: seq<byte>): (r: Sums) {
    if s == [] then s0 else
    var p := Rfc(s0, s[..|s| - 1]);
    var a := (p.a + s[|s| - 1]) % BASE;
    Sums(a, (p.b + a) % BASE)
  }

  /** The checksum RFC 1950 stores: both sums, the second in the high half. */
  function Checksum(s: seq<byte>): (c: nat)
    ensures c < U32
  {
    RfcReduced(Sums(1, 0), s);
    Rfc(Sums(1, 0), s).b * U16 + Rfc(Sums(1, 0), s).a
  }

  lemma {:induction false} RfcReduced(s0: Sums, s: seq<byte>)
    requires s0.a < BASE && s0.b < BASE
    ensures Rfc(s0, s).a < BASE && Rfc(s0, s).b < BASE
  {
  }

  /** Summing `x` and then `y` is summing `x + y`. */
  lemma {:induction false} RfcConcat(s0: Sums, x: seq<byte>, y: seq<byte>)
    ensures Rfc(Rfc(s0, x), y) == Rfc(s0, x + y)
  {
    if y == [] {
      assert x + y == x;
    } else {
      var y' := y[..|y| - 1];
      assert (x + y)[..|x + y| - 1] == x + y';
      RfcConcat(s0, x, y');
    }
  }

  /** What an update straddling the window's end relies on. */
  lemma {:induction false} RfcTwoParts(s0: Sums, out: seq<byte>, low: seq<byte>, high: seq<byte>)
    ensures Rfc(Rfc(Rfc(s0, out), low), high) == Rfc(s0, out + (low + high))
  {
    RfcConcat(s0, out, low);
    RfcConcat(s0, out + low, high);
    assert out + (low + high) == (out + low) + high;
  }

  lemma {:induction false} RfcSnoc(s0: Sums, s: seq<byte>, x: byte)
    ensures Rfc(s0, s + [x]) ==
            Sums((Rfc(s0, s).a + x) % BASE, (Rfc(s0, s).b + (Rfc(s0, s).a + x) % BASE) % BASE)
  {
    assert (s + [x])[..|s|] == s;
  }

  // ---- Deferred modulus ----

  ghost predicate Congruent(s0: Sums, s: seq<byte>, a: nat, b: nat) {
    a % BASE == Rfc(s0, s).a && b % BASE == Rfc(s0, s).b
  }

  /** Sums congruent to the reference stay so when a byte is added without reducing. */
  lemma {:induction false} DeferredStep(s0: Sums, s: seq<byte>, x: byte, a: nat, b: nat)
    requires Congruent(s0, s, a, b)
    ensures Congruent(s0, s + [x], a + x, b + (a + x))
  {
    RfcSnoc(s0, s, x);
    AddMod(a, x);
    AddMod(b, a + x);
  }

  lemma {:induction false} AddMod(m: nat, n: nat)
    ensures (m % BASE + n) % BASE == (m + n) % BASE
    ensures (m % BASE + n % BASE) % BASE == (m + n) % BASE
  {
  }

  /** The largest sums `n` bytes into a block that starts reduced. */
  function MaxA(n: nat): (m: nat) { 65520 + 255 * n }

  function MaxB(n: nat): (m: nat) { if n == 0 then 65520 else MaxB(n - 1) + MaxA(n) }

  lemma {:induction false} MaxBClosed(n: nat)
    ensures 2 * MaxB(n) == 131040 * (n + 1) + 255 * (n * n + n)
  {
    if n > 0 { MaxBClosed(n - 1); }
  }

  lemma {:induction false} MaxBMonotone(m: nat, n: nat)
    requires m <= n
    ensures MaxB(m) <= MaxB(n)
  {
    if m < n { MaxBMonotone(m, n - 1); }
  }

  /** A block of 5552 bytes fits a u32 and one more byte would not. */
  lemma {:induction false} BlockIsTheLongest(n: nat)
    ensures n <= BLOCK <==> MaxB(n) < U32
  {
    MaxBClosed(BLOCK);
    MaxBClosed(BLOCK + 1);
    if n <= BLOCK { MaxBMonotone(n, BLOCK); } else { MaxBMonotone(BLOCK + 1, n); }
  }

  /** The overflow is reached, by a block of 0xff bytes on sums of 65520. */
  lemma {:induction false} MaxBReached(n: nat)
    ensures Unreduced(Sums(65520, 65520), seq(n, _ => 255)) == Sums(MaxA(n), MaxB(n))
  {
    if n > 0 {
      MaxBReached(n - 1);
      assert seq(n, _ => 255)[..n - 1] == seq(n - 1, _ => 255);
    }
  }

  /** The sums without any reduction. */
  function Unreduced(s0: Sums, s: seq<byte>): (r: Sums) {
    if s == [] then s0 else
    var p := Unreduced(s0, s[..|s| - 1]);
    var a := p.a + s[|s| - 1];
    Sums(a, p.b + a)
  }

  class Adler32 {
    var a: u32
    var b: u32

    function Value(): (s: Sums)
      reads this
    {
      Sums(a as nat, b as nat)
    }

    predicate Reduced()
      reads this
    {
      a as int < BASE && b as int < BASE
    }

    constructor ()
      ensures Reduced() && Value() == Sums(1, 0)
    {
      a, b := 1, 0;
    }

    /** One block, reduced at its end: no intermediate sum leaves a u32. */
    method UpdateBlock(chunk: seq<byte>)
      requires Reduced() && |chunk| <= BLOCK
      modifies this
      ensures Reduced() && Value() == Rfc(old(Value()), chunk)
    {
      ghost var s0 := Value();
      var j := 0;
      while j < |chunk|
        invariant j <= |chunk|
        invariant a as int <= MaxA(j) && b as int <= MaxB(j)
        invariant Congruent(s0, chunk[..j], a as nat, b as nat)
      {
        BlockIsTheLongest(j + 1);
        DeferredStep(s0, chunk[..j], chunk[j], a as nat, b as nat);
        assert chunk[..j + 1] == chunk[..j] + [chunk[j]];
        a := a + chunk[j] as u32;
        b := b + a;
        j := j + 1;
      }
      assert chunk[..j] == chunk;
      a := a % 65521;
      b := b % 65521;
    }

    /** Both sums advance as RFC 1950 defines, whatever the length of `bytes`. */
    method Update(bytes: seq<byte>)
      requires Reduced()
      modifies this
      ensures Reduced() && Value() == Rfc(old(Value()), bytes)
    {
      ghost var s0 := Value();
      var i := 0;
      while i < |bytes|
        invariant i <= |bytes| && Reduced() && Value() == Rfc(s0, bytes[..i])
      {
        var end := if |bytes| - i < BLOCK then |bytes| else i + BLOCK;
        RfcConcat(s0, bytes[..i], bytes[i..end]);
        assert bytes[..end] == bytes[..i] + bytes[i..end];
        UpdateBlock(bytes[i..end]);
        i := end;
      }
      assert bytes[..i] == bytes;
    }

    /** `b << 16 | a`: once the sums are those of some bytes, the checksum of those bytes. */
    method Result() returns (c: nat)
      requires Reduced()
      ensures forall s :: Value() == Rfc(Sums(1, 0), s) ==> c == Checksum(s)
    {
      Bits.OrHalves(b as nat, a as nat);
      c := Bits.Or(b as nat * U16 % U32, a as nat);
    }
  }

  // ---- The scan ----

  const WINDOW: nat := 32768

  datatype Status = Done | HasMoreOutput | Failed

  /** One call into the raw inflater: what it consumed and produced, and why it stopped. */
  datatype Reply = Reply(status: Status, consumed: nat, out: seq<byte>)

  /** Any inflater, as its replies call by call. It fills at most the window at a time. */
  ghost predicate Inflates(replies: nat -> Reply) {
    forall k :: |replies(k).out| <= WINDOW
  }

  datatype ZlibEnd =
    | Overflow | Corrupt
    | TooShort | NotDeflate | WindowSize | FCheck | NoAdler | AdlerMismatch

  /** A position in the wrapping window. */
  function InWindow(n: nat): (p: nat)
    ensures p < WINDOW
  {
    n % WINDOW
  }

  function HeaderError(input: seq<byte>): (e: Option<ZlibEnd>)
    ensures e.None? ==> |input| >= 6
  {
    if |input| < 6 then Some(TooShort)
    else if input[0] % 16 != 8 then Some(NotDeflate)
    else if input[0] / 16 > 7 then Some(WindowSize)
    else if (input[0] as int * 256 + input[1]) % 31 != 0 then Some(FCheck)
    else None
  }

  /** The trailer after a stream that inflated to `out`: four bytes of Adler-32, big endian. */
  function Trailer(input: seq<byte>, inPos: nat, out: seq<byte>): (r: Result<(nat, nat), ZlibEnd>) {
    if inPos + 4 > |input| then Err(NoAdler)
    else if BeU32At(input, inPos) != Checksum(out) then Err(AdlerMismatch)
    else Ok((inPos + 4, |out|))
  }

  /**
   The end of the stream seen as one unbroken output, no window: call `k` starts at
   `inPos` with `out` produced so far.
   */
  function StreamEnd(replies: nat -> Reply, input: seq<byte>, limit: nat, k: nat, inPos: nat, out: seq<byte>)
    : (r: Result<(nat, nat), ZlibEnd>)
    requires inPos <= |input| && |out| <= limit
    decreases |input| - inPos + limit - |out|
  {
    var reply := replies(k);
    var inPos' := inPos + Min(reply.consumed, |input| - inPos);
    var out' := out + reply.out;
    if |out'| > limit then Err(Overflow) else
    match reply.status
    case Done => Trailer(input, inPos', out')
    case HasMoreOutput =>
      if inPos' == inPos && reply.out == [] then Err(Corrupt)
      else StreamEnd(replies, input, limit, k + 1, inPos', out')
    case Failed => Err(Corrupt)
  }

  lemma {:induction false} RfcOfNothing(s: Sums)
    ensures Rfc(s, []) == s
  {
  }

  /** What one call makes of the stream. */
  lemma {:induction false} StreamStep(replies: nat -> Reply, input: seq<byte>, limit: nat, k: nat, inPos: nat,
      out: seq<byte>)
    requires inPos <= |input| && |out| <= limit
    ensures
      var reply := replies(k);
      var (inPos', out') := (inPos + Min(reply.consumed, |input| - inPos), out + reply.out);
      var end := StreamEnd(replies, input, limit, k, inPos, out);
      if |out'| > limit then end == Err(Overflow)
      else if reply.status == Done then end == Trailer(input, inPos', out')
      else if reply.status == HasMoreOutput && inPos' + |out'| > inPos + |out|
      then end == StreamEnd(replies, input, limit, k + 1, inPos', out')
      else end == Err(Corrupt)
  {
  }

  class ZlibScan {
    const window: array<byte>

    constructor ()
      ensures window.Length == WINDOW && fresh(window)
    {
      window := new byte[WINDOW](_ => 0);
    }

    /** One inflater call: its output lands in the window from `outPos`, wrapping at the end. */
    method Decompress(reply: Reply, avail: nat, outPos: nat) returns (status: Status, nIn: nat, nOut: nat)
      requires window.Length == WINDOW && outPos < WINDOW && |reply.out| <= WINDOW
      modifies window
      ensures status == reply.status && nIn == Min(reply.consumed, avail) && nOut == |reply.out|
      ensures
        var first := Min(nOut, WINDOW - outPos);
        window[outPos..outPos + first] + window[..nOut - first] == reply.out
    {
      status, nIn, nOut := reply.status, Min(reply.consumed, avail), |reply.out|;
      var first := Min(nOut, WINDOW - outPos);
      forall i | 0 <= i < first {
        window[outPos + i] := reply.out[i];
      }
      forall i | 0 <= i < nOut - first {
        window[i] := reply.out[first + i];
      }
      assert window[outPos..outPos + first] == reply.out[..first];
      assert window[..nOut - first] == reply.out[first..];
    }

    /** One call and its checksum update; the new output may straddle the window's end. */
    method Feed(adler: Adler32, reply: Reply, avail: nat, outPos: nat, ghost out: seq<byte>)
      returns (status: Status, nIn: nat, nOut: nat)
      requires window.Length == WINDOW && outPos < WINDOW && |reply.out| <= WINDOW
      requires adler.Reduced() && adler.Value() == Rfc(Sums(1, 0), out)
      modifies window, adler
      ensures status == reply.status && nIn == Min(reply.consumed, avail) && nOut == |reply.out|
      ensures adler.Reduced() && adler.Value() == Rfc(Sums(1, 0), out + reply.out)
    {
      status, nIn, nOut := Decompress(reply, avail, outPos);
      var first := Min(nOut, WINDOW - outPos);
      var low, high := window[outPos..outPos + first], window[..nOut - first];
      RfcTwoParts(Sums(1, 0), out, low, high);
      adler.Update(low);
      adler.Update(high);
    }

    /** Raw inflation from byte 2 and the trailer after it. */
    method Inflate(replies: nat -> Reply, input: seq<byte>, limit: nat) returns (r: Result<(nat, nat), ZlibEnd>)
      requires window.Length == WINDOW && Inflates(replies) && |input| >= 2
      modifies window
      ensures r == StreamEnd(replies, input, limit, 0, 2, [])
    {
      hide Rfc, BeU32At, InWindow, StreamEnd;
      RfcOfNothing(Sums(1, 0));
      var inPos: nat, outPos: nat, produced: nat, calls: nat := 2, 0, 0, 0;
      var adler := new Adler32();
      ghost var out: seq<byte> := [];
      while true
        invariant inPos <= |input| && |out| == produced <= limit && outPos < WINDOW
        invariant adler.Reduced() && adler.Value() == Rfc(Sums(1, 0), out)
        invariant fresh(adler)
        invariant StreamEnd(replies, input, limit, 0, 2, []) == StreamEnd(replies, input, limit, calls, inPos, out)
        decreases |input| - inPos + limit - produced
      {
        var reply := replies(calls);
        StreamStep(replies, input, limit, calls, inPos, out);
        var status, nIn, nOut := Feed(adler, reply, |input| - inPos, outPos, out);
        inPos := inPos + nIn;
        produced := produced + nOut;
        outPos := InWindow(outPos + nOut);
        out := out + reply.out;
        calls := calls + 1;
        if produced > limit { return Err(Overflow); }
        if status == Done { break; }
        if status != HasMoreOutput || nIn + nOut == 0 { return Err(Corrupt); }
      }
      if inPos + 4 > |input| { return Err(NoAdler); }
      var sum := adler.Result();
      if BeU32At(input, inPos) != sum { return Err(AdlerMismatch); }
      return Ok((inPos + 4, produced));
    }

    /**
     `ZlibScan::end`: the window and its two-part checksum updates see exactly the
     bytes of the unbroken output.
     */
    method End(replies: nat -> Reply, input: seq<byte>, limit: nat) returns (r: Result<(nat, nat), ZlibEnd>)
      requires window.Length == WINDOW && Inflates(replies)
      modifies window
      ensures match HeaderError(input)
        case Some(e) => r == Err(e)
        case None => r == StreamEnd(replies, input, limit, 0, 2, [])
    {
      if |input| < 6 { return Err(TooShort); }
      var cmf, flg := input[0], input[1];
      if cmf % 16 != 8 { return Err(NotDeflate); }
      if cmf / 16 > 7 { return Err(WindowSize); }
      if (cmf as int * 256 + flg) % 31 != 0 { return Err(FCheck); }
      r := Inflate(replies, input, limit);
    }
  }
}
