/** How much of a run-length coded block exr reads before it stops. */
module ExrRle {
  import opened Wrappers
  import opened Bytes

  /** One token: a literal run of raw bytes, or one byte repeated. */
  datatype Token = Literal(bytes: seq<byte>) | Repeat(count: nat, value: byte)

  ghost predicate WellFormed(t: Token) {
    match t
    case Literal(bytes) => 1 <= |bytes| <= 128
    case Repeat(count, _) => 1 <= count <= 128
  }

  /** A literal run counts down from 256; a repeat stores its count less one. */
  function Encoded(t: Token): (s: seq<byte>)
    requires WellFormed(t)
    ensures |s| >= 2
  {
    match t
    case Literal(bytes) => [(256 - |bytes|) as byte] + bytes
    case Repeat(count, value) => [(count - 1) as byte, value]
  }

  function Produces(t: Token): (n: nat) {
    match t
    case Literal(bytes) => |bytes|
    case Repeat(count, _) => count
  }

  function EncodedAll(ts: seq<Token>): (s: seq<byte>)
    requires forall t :: t in ts ==> WellFormed(t)
  {
    if ts == [] then [] else Encoded(ts[0]) + EncodedAll(ts[1..])
  }

  function ProducesAll(ts: seq<Token>): (n: nat) {
    if ts == [] then 0 else Produces(ts[0]) + ProducesAll(ts[1..])
  }

  datatype RleError = LiteralPastEnd | RepeatPastEnd

  /** Bytes read and bytes produced when reading stops at `expected` or at the end of the input. */
  function ConsumedFrom(bytes: seq<byte>, expected: nat, pos: nat, produced: nat): (r: Result<(nat, nat), RleError>)
    requires pos <= |bytes|
    ensures r.Ok? ==> pos <= r.value.0 <= |bytes|
    decreases |bytes| - pos
  {
    if pos == |bytes| || produced == expected then Ok((pos, produced))
    else if bytes[pos] >= 128 then
      var n := 256 - bytes[pos];
      if |bytes| - (pos + 1) < n then Err(LiteralPastEnd)
      else ConsumedFrom(bytes, expected, pos + 1 + n, produced + n)
    else if pos + 1 >= |bytes| then Err(RepeatPastEnd)
    else ConsumedFrom(bytes, expected, pos + 2, produced + bytes[pos] + 1)
  }

  function Consumed(bytes: seq<byte>, expected: nat): (r: Result<(nat, nat), RleError>) {
    ConsumedFrom(bytes, expected, 0, 0)
  }

  /** `rle_consumed`. */
  method RleConsumed(bytes: seq<byte>, expected: nat) returns (r: Result<(nat, nat), RleError>)
    ensures r == Consumed(bytes, expected)
  {
    var pos: nat, produced: nat := 0, 0;
    while pos < |bytes| && produced != expected
      invariant pos <= |bytes|
      invariant Consumed(bytes, expected) == ConsumedFrom(bytes, expected, pos, produced)
    {
      var b := bytes[pos];
      var count: int := if b >= 128 then b as int - 256 else b;
      pos := pos + 1;
      if count < 0 {
        var n := -count;
        if |bytes| - pos < n { return Err(LiteralPastEnd); }
        pos := pos + n;
        produced := produced + n;
      } else {
        if pos >= |bytes| { return Err(RepeatPastEnd); }
        pos := pos + 1;
        produced := produced + count + 1;
      }
    }
    return Ok((pos, produced));
  }

  /** `bytes` from `pos` is a run of tokens producing `want` bytes. */
  ghost predicate Tokenizes(bytes: seq<byte>, pos: nat, want: nat, ts: seq<Token>) {
    && pos <= |bytes| && (forall t :: t in ts ==> WellFormed(t))
    && bytes[pos..] == EncodedAll(ts) && ProducesAll(ts) == want
  }

  lemma SuffixSplit<T>(s: seq<T>, i: nat, a: seq<T>, b: seq<T>)
    requires i <= |s| && s[i..] == a + b
    ensures i + |a| <= |s| && s[i..i + |a|] == a && s[i + |a|..] == b
    ensures forall j :: 0 <= j < |a| ==> s[i + j] == a[j]
  {
    assert |s| - i == |a| + |b|;
    forall j | 0 <= j < |a|
      ensures s[i + j] == a[j]
    {
      assert s[i..][j] == a[j];
    }
    assert s[i + |a|..] == s[i..][|a|..];
  }

  /** Reading steps over an encoded token. */
  lemma {:induction false} TokenStep(bytes: seq<byte>, expected: nat, pos: nat, produced: nat, t: Token)
    requires WellFormed(t) && produced != expected && pos + |Encoded(t)| <= |bytes|
    requires forall j :: 0 <= j < |Encoded(t)| ==> bytes[pos + j] == Encoded(t)[j]
    ensures ConsumedFrom(bytes, expected, pos, produced)
         == ConsumedFrom(bytes, expected, pos + |Encoded(t)|, produced + Produces(t))
  {
    assert bytes[pos + 0] == Encoded(t)[0];
  }

  /** Peeling the first token off. */
  lemma {:induction false} TokenPeeled(bytes: seq<byte>, pos: nat, want: nat, ts: seq<Token>) returns (next: nat)
    requires ts != [] && Tokenizes(bytes, pos, want, ts)
    ensures WellFormed(ts[0]) && next == pos + |Encoded(ts[0])| <= |bytes|
    ensures forall j :: 0 <= j < |Encoded(ts[0])| ==> bytes[pos + j] == Encoded(ts[0])[j]
    ensures Produces(ts[0]) <= want && Tokenizes(bytes, next, want - Produces(ts[0]), ts[1..])
  {
    assert WellFormed(ts[0]);
    SuffixSplit(bytes, pos, Encoded(ts[0]), EncodedAll(ts[1..]));
    next := pos + |Encoded(ts[0])|;
  }

  lemma {:induction false} TokensAreConsumed(bytes: seq<byte>, expected: nat, pos: nat, produced: nat, ts: seq<Token>)
    requires produced <= expected && Tokenizes(bytes, pos, expected - produced, ts)
    ensures ConsumedFrom(bytes, expected, pos, produced) == Ok((|bytes|, expected))
    decreases |ts|
  {
    if ts != [] {
      var next := TokenPeeled(bytes, pos, expected - produced, ts);
      TokenStep(bytes, expected, pos, produced, ts[0]);
      TokensAreConsumed(bytes, expected, next, produced + Produces(ts[0]), ts[1..]);
    }
  }

  lemma {:induction false} PrependToken(bytes: seq<byte>, pos: nat, t: Token, want: nat, rest: seq<Token>)
    requires WellFormed(t) && pos + |Encoded(t)| <= |bytes| && bytes[pos..pos + |Encoded(t)|] == Encoded(t)
    requires Tokenizes(bytes, pos + |Encoded(t)|, want, rest)
    ensures Tokenizes(bytes, pos, want + Produces(t), [t] + rest)
  {
    assert ([t] + rest)[1..] == rest;
    assert bytes[pos..] == bytes[pos..pos + |Encoded(t)|] + bytes[pos + |Encoded(t)|..];
  }

  /** What reading steps over is a token. */
  lemma {:induction false} TokenAt(bytes: seq<byte>, expected: nat, pos: nat, produced: nat) returns (t: Token)
    requires pos < |bytes| && produced != expected && ConsumedFrom(bytes, expected, pos, produced).Ok?
    ensures WellFormed(t) && pos + |Encoded(t)| <= |bytes| && bytes[pos..pos + |Encoded(t)|] == Encoded(t)
    ensures ConsumedFrom(bytes, expected, pos, produced)
         == ConsumedFrom(bytes, expected, pos + |Encoded(t)|, produced + Produces(t))
  {
    var b := bytes[pos];
    t := if b >= 128 then Literal(bytes[pos + 1..pos + 1 + (256 - b)]) else Repeat(b + 1, bytes[pos + 1]);
  }

  lemma {:induction false} ConsumedTokens(bytes: seq<byte>, expected: nat, pos: nat, produced: nat)
      returns (ts: seq<Token>)
    requires pos <= |bytes| && produced <= expected
    requires ConsumedFrom(bytes, expected, pos, produced) == Ok((|bytes|, expected))
    ensures Tokenizes(bytes, pos, expected - produced, ts)
    decreases |bytes| - pos
  {
    if pos == |bytes| {
      ts := [];
    } else {
      var t := TokenAt(bytes, expected, pos, produced);
      var next := pos + |Encoded(t)|;
      if produced + Produces(t) > expected {
        OvershootsForGood(bytes, expected, next, produced + Produces(t));
      }
      var rest := ConsumedTokens(bytes, expected, next, produced + Produces(t));
      ts := [t] + rest;
      PrependToken(bytes, pos, t, expected - produced - Produces(t), rest);
    }
  }

  /** Past `expected`, reading never comes back to it. */
  lemma {:induction false} OvershootsForGood(bytes: seq<byte>, expected: nat, pos: nat, produced: nat)
    requires pos <= |bytes| && produced > expected
    ensures ConsumedFrom(bytes, expected, pos, produced) != Ok((|bytes|, expected))
    decreases |bytes| - pos
  {
    if pos < |bytes| {
      if bytes[pos] >= 128 {
        if pos + 1 + (256 - bytes[pos]) <= |bytes| {
          OvershootsForGood(bytes, expected, pos + 1 + (256 - bytes[pos]), produced + (256 - bytes[pos]));
        }
      } else if pos + 1 < |bytes| {
        OvershootsForGood(bytes, expected, pos + 2, produced + bytes[pos] + 1);
      }
    }
  }

  /** A block is accepted exactly when its bytes are tokens producing what the block needs. */
  lemma {:induction false} AcceptedIsTokenized(bytes: seq<byte>, expected: nat)
    ensures Consumed(bytes, expected) == Ok((|bytes|, expected)) <==> exists ts :: Tokenizes(bytes, 0, expected, ts)
  {
    if Consumed(bytes, expected) == Ok((|bytes|, expected)) {
      var ts := ConsumedTokens(bytes, expected, 0, 0);
    }
    if ts :| Tokenizes(bytes, 0, expected, ts) {
      TokensAreConsumed(bytes, expected, 0, 0, ts);
    }
  }
}
