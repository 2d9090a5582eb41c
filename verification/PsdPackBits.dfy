/** PackBits scanlines, and planes made of them. */
module PsdPackBits {
  import opened Wrappers
  import opened Bytes

  // ---- Tokens, as section 9 of TIFF 6.0 names them ----

  /** Raw bytes, one byte repeated, or nothing. */
  datatype Token = Literal(bytes: seq<byte>) | Repeat(count: nat, value: byte) | NoOp

  ghost predicate WellFormed(t: Token) {
    match t
    case Literal(bytes) => 1 <= |bytes| <= 128
    case Repeat(count, _) => 2 <= count <= 128
    case NoOp => true
  }

  /** Two's complement: a repeat of `count` stores `1 - count`. */
  function Encoded(t: Token): (s: seq<byte>)
    requires WellFormed(t)
    ensures |s| >= 1
  {
    match t
    case Literal(bytes) => [(|bytes| - 1) as byte] + bytes
    case Repeat(count, value) => [(257 - count) as byte, value]
    case NoOp => [128]
  }

  function Repeated(value: byte, count: nat): (s: seq<byte>)
    ensures |s| == count && forall i :: 0 <= i < count ==> s[i] == value
  {
    seq(count, _ => value)
  }

  function Expansion(t: Token): (s: seq<byte>) {
    match t
    case Literal(bytes) => bytes
    case Repeat(count, value) => Repeated(value, count)
    case NoOp => []
  }

  ghost predicate AllWellFormed(ts: seq<Token>) { forall t :: t in ts ==> WellFormed(t) }

  ghost function EncodedAll(ts: seq<Token>): (s: seq<byte>)
    requires AllWellFormed(ts)
  {
    if ts == [] then [] else Encoded(ts[0]) + EncodedAll(ts[1..])
  }

  ghost function ExpansionOf(ts: seq<Token>): (s: seq<byte>) {
    if ts == [] then [] else Expansion(ts[0]) + ExpansionOf(ts[1..])
  }

  // ---- One scanline ----

  datatype RowError = TruncatedLiteral | LiteralOverflow | TruncatedRepeat | RepeatOverflow | TooShort

  /** A scanline of `n` bytes, `out` of them decoded when reading stands at `si`. */
  function Decode(src: seq<byte>, si: nat, n: nat, out: seq<byte>): (r: Result<seq<byte>, RowError>)
    requires si <= |src|
    decreases |src| - si
  {
    if si == |src| || |out| >= n then if |out| == n then Ok(out) else Err(TooShort)
    else if src[si] < 128 then
      var count := src[si] + 1;
      if si + 1 + count > |src| then Err(TruncatedLiteral)
      else if |out| + count > n then Err(LiteralOverflow)
      else Decode(src, si + 1 + count, n, out + src[si + 1..si + 1 + count])
    else if src[si] == 128 then Decode(src, si + 1, n, out)
    else
      var count := 257 - src[si];
      if si + 1 >= |src| then Err(TruncatedRepeat)
      else if |out| + count > n then Err(RepeatOverflow)
      else Decode(src, si + 2, n, out + Repeated(src[si + 1], count))
  }

  /** A scanline's bytes. */
  function RowOf(src: seq<byte>, n: nat): (r: Result<seq<byte>, RowError>) { Decode(src, 0, n, []) }

  /** One token is stepped over. */
  lemma {:induction false} StepsOver(src: seq<byte>, si: nat, n: nat, out: seq<byte>, t: Token)
    requires WellFormed(t) && si + |Encoded(t)| <= |src| && src[si..si + |Encoded(t)|] == Encoded(t)
    requires |out| < n && |out| + |Expansion(t)| <= n
    ensures Decode(src, si, n, out) == Decode(src, si + |Encoded(t)|, n, out + Expansion(t))
  {
    var e := src[si..si + |Encoded(t)|];
    assert src[si] == e[0];
    match t
    case Literal(bytes) => assert src[si + 1..si + 1 + |bytes|] == e[1..] == bytes;
    case Repeat(_, _) => assert src[si + 1] == e[1];
    case NoOp => assert out + [] == out;
  }

  /** Reading stops at the end of the source or of the scanline. */
  lemma {:induction false} Stops(src: seq<byte>, si: nat, n: nat, out: seq<byte>)
    requires si <= |src| && (si == |src| || |out| >= n)
    ensures Decode(src, si, n, out) == if |out| == n then Ok(out) else Err(TooShort)
  {
  }

  /** A token prefix that expands to what is missing is accepted. */
  lemma {:induction false} PrefixAccepted(src: seq<byte>, si: nat, n: nat, out: seq<byte>, ts: seq<Token>)
    requires si <= |src| && AllWellFormed(ts) && EncodedAll(ts) <= src[si..] && |out| + |ExpansionOf(ts)| == n
    ensures Decode(src, si, n, out) == Ok(out + ExpansionOf(ts))
    decreases |ts|
  {
    hide Decode, Encoded, Expansion;
    if |out| == n {
      Stops(src, si, n, out);
      assert out + ExpansionOf(ts) == out;
    } else {
      assert ts != [];
      var t := ts[0];
      PrefixSplit(src, si, Encoded(t), EncodedAll(ts[1..]));
      StepsOver(src, si, n, out, t);
      PrefixAccepted(src, si + |Encoded(t)|, n, out + Expansion(t), ts[1..]);
      assert out + ExpansionOf(ts) == (out + Expansion(t)) + ExpansionOf(ts[1..]);
    }
  }

  lemma {:induction false} PrefixSplit(src: seq<byte>, si: nat, a: seq<byte>, b: seq<byte>)
    requires si <= |src| && a + b <= src[si..]
    ensures si + |a| <= |src| && src[si..si + |a|] == a && b <= src[si + |a|..]
  {
    assert src[si..][..|a| + |b|] == a + b;
    assert src[si..si + |a|] == src[si..][..|a| + |b|][..|a|];
    assert src[si + |a|..][..|b|] == src[si..][..|a| + |b|][|a|..];
  }

  /** What an accepted scanline steps over first is a token. */
  lemma {:induction false} FirstToken(src: seq<byte>, si: nat, n: nat, out: seq<byte>) returns (t: Token)
    requires si < |src| && |out| < n && Decode(src, si, n, out).Ok?
    ensures WellFormed(t) && si + |Encoded(t)| <= |src| && src[si..si + |Encoded(t)|] == Encoded(t)
    ensures |out| + |Expansion(t)| <= n
  {
    var h := src[si];
    t := if h < 128 then Literal(src[si + 1..si + 2 + h]) else if h == 128 then NoOp else Repeat(257 - h, src[si + 1]);
    if h < 128 { assert Encoded(t) == src[si..si + 2 + h]; }
  }

  /** An accepted scanline is a token prefix of the source. */
  lemma {:induction false} AcceptedIsPrefix(src: seq<byte>, si: nat, n: nat, out: seq<byte>) returns (ts: seq<Token>)
    requires si <= |src| && |out| <= n && Decode(src, si, n, out).Ok?
    ensures AllWellFormed(ts) && EncodedAll(ts) <= src[si..] && Decode(src, si, n, out) == Ok(out + ExpansionOf(ts))
    ensures |out| + |ExpansionOf(ts)| == n
    decreases |src| - si
  {
    hide Decode, Encoded, Expansion;
    if si == |src| || |out| == n {
      Stops(src, si, n, out);
      ts := [];
      assert out + ExpansionOf(ts) == out;
    } else {
      var t := FirstToken(src, si, n, out);
      StepsOver(src, si, n, out, t);
      var next := si + |Encoded(t)|;
      var rest := AcceptedIsPrefix(src, next, n, out + Expansion(t));
      ts := [t] + rest;
      assert ts[1..] == rest;
      PrefixJoins(src, si, Encoded(t), EncodedAll(rest));
      assert (out + Expansion(t)) + ExpansionOf(rest) == out + ExpansionOf(ts);
    }
  }

  lemma {:induction false} PrefixJoins(src: seq<byte>, si: nat, a: seq<byte>, b: seq<byte>)
    requires si + |a| <= |src| && src[si..si + |a|] == a && b <= src[si + |a|..]
    ensures a + b <= src[si..]
  {
    assert src[si..][..|a| + |b|] == src[si..si + |a|] + src[si + |a|..][..|b|];
  }

  /** `out` is what a token prefix of `src` expands to. */
  ghost predicate Unpacks(src: seq<byte>, out: seq<byte>) {
    exists ts :: AllWellFormed(ts) && EncodedAll(ts) <= src && ExpansionOf(ts) == out
  }

  /**
   A scanline is accepted exactly when some token prefix expands to exactly its length, and becomes that
   expansion.
   */
  lemma {:induction false} AcceptedIffUnpacks(src: seq<byte>, n: nat, out: seq<byte>)
    ensures RowOf(src, n) == Ok(out) <==> |out| == n && Unpacks(src, out)
  {
    assert src[0..] == src;
    if RowOf(src, n) == Ok(out) {
      var ts := AcceptedIsPrefix(src, 0, n, []);
      assert [] + ExpansionOf(ts) == ExpansionOf(ts);
    }
    if |out| == n && Unpacks(src, out) {
      var ts :| AllWellFormed(ts) && EncodedAll(ts) <= src && ExpansionOf(ts) == out;
      PrefixAccepted(src, 0, n, [], ts);
      assert [] + ExpansionOf(ts) == out;
    }
  }

  /** `dst[at..]` so far: the bytes decoded, and nothing else touched. */
  ghost predicate Wrote(now: seq<byte>, was: seq<byte>, at: nat, n: nat, out: seq<byte>) {
    && |now| == |was| && at + n <= |now| && |out| <= n
    && now[..at] == was[..at] && now[at..at + |out|] == out && now[at + n..] == was[at + n..]
  }

  lemma {:induction false} WroteMore(now: seq<byte>, later: seq<byte>, was: seq<byte>, at: nat, n: nat,
      out: seq<byte>, more: seq<byte>)
    requires Wrote(now, was, at, n, out) && |out| + |more| <= n && |later| == |now|
    requires forall i :: 0 <= i < |later| ==>
      later[i] == (if at + |out| <= i < at + |out| + |more| then more[i - at - |out|] else now[i])
    ensures Wrote(later, was, at, n, out + more)
  {
    assert later[at..at + |out|] == now[at..at + |out|];
    assert later[at + |out|..at + |out| + |more|] == more;
    assert later[at..at + |out + more|] == later[at..at + |out|] + later[at + |out|..at + |out| + |more|];
    assert later[..at] == now[..at] && later[at + n..] == now[at + n..];
  }

  /** Writes what a token gives behind what is written. */
  method Emit(dst: array<byte>, at: nat, n: nat, di: nat, more: seq<byte>, ghost was: seq<byte>, ghost out: seq<byte>)
    requires at + n <= dst.Length && di == |out| && di + |more| <= n && Wrote(dst[..], was, at, n, out)
    modifies dst
    ensures Wrote(dst[..], was, at, n, out + more)
  {
    hide Wrote;
    ghost var now := dst[..];
    CopyInto(dst, at + di, more);
    WroteMore(now, dst[..], was, at, n, out, more);
  }

  /** `decode_packbits_row` into the `n` bytes at `at`. */
  method DecodePackBitsRow(src: seq<byte>, dst: array<byte>, at: nat, n: nat) returns (r: Result<(), RowError>)
    requires at + n <= dst.Length
    modifies dst
    ensures dst[..at] == old(dst[..at]) && dst[at + n..] == old(dst[at + n..])
    ensures r.Ok? ==> RowOf(src, n) == Ok(dst[at..at + n])
    ensures r.Err? ==> RowOf(src, n) == Err(r.error)
  {
    hide Decode, Wrote, Repeated;
    var si: nat, di: nat := 0, 0;
    ghost var was, out: seq<byte> := dst[..], [];
    WroteNothing(was, at, n);
    while si < |src| && di < n
      invariant si <= |src| && di == |out| <= n && Wrote(dst[..], was, at, n, out)
      invariant RowOf(src, n) == Decode(src, si, n, out)
    {
      DecodeStep(src, si, n, out);
      var header := src[si];
      ghost var now := dst[..];
      si := si + 1;
      if header < 128 {
        var count := header + 1;
        if si + count > |src| { WroteOnly(now, was, at, n, out); return Err(TruncatedLiteral); }
        if di + count > n { WroteOnly(now, was, at, n, out); return Err(LiteralOverflow); }
        Emit(dst, at, n, di, src[si..si + count], was, out);
        out := out + src[si..si + count];
        si := si + count;
        di := di + count;
      } else if header != 128 {
        var count := 257 - header;
        if si >= |src| { WroteOnly(now, was, at, n, out); return Err(TruncatedRepeat); }
        var val := src[si];
        si := si + 1;
        if di + count > n { WroteOnly(now, was, at, n, out); return Err(RepeatOverflow); }
        Emit(dst, at, n, di, Repeated(val, count), was, out);
        out := out + Repeated(val, count);
        di := di + count;
      }
    }
    Stops(src, si, n, out);
    WroteOnly(dst[..], was, at, n, out);
    if di != n { return Err(TooShort); }
    return Ok(());
  }

  lemma {:induction false} WroteNothing(was: seq<byte>, at: nat, n: nat)
    requires at + n <= |was|
    ensures Wrote(was, was, at, n, [])
  {
  }

  lemma {:induction false} WroteOnly(now: seq<byte>, was: seq<byte>, at: nat, n: nat, out: seq<byte>)
    requires Wrote(now, was, at, n, out)
    ensures |now| == |was| && at + n <= |now| && now[..at] == was[..at] && now[at + n..] == was[at + n..]
    ensures |out| == n ==> now[at..at + n] == out
  {
  }

  /** What the byte at `si` makes of the rest. */
  lemma {:induction false} DecodeStep(src: seq<byte>, si: nat, n: nat, out: seq<byte>)
    requires si < |src| && |out| < n
    ensures
      var d := Decode(src, si, n, out);
      var h := src[si];
      if h < 128 then
        if si + 2 + h > |src| then d == Err(TruncatedLiteral)
        else if |out| + h + 1 > n then d == Err(LiteralOverflow)
        else d == Decode(src, si + 2 + h, n, out + src[si + 1..si + 2 + h])
      else if h == 128 then d == Decode(src, si + 1, n, out)
      else if si + 1 >= |src| then d == Err(TruncatedRepeat)
      else if |out| + (257 - h) > n then d == Err(RepeatOverflow)
      else d == Decode(src, si + 2, n, out + Repeated(src[si + 1], 257 - h))
  {
  }
}
