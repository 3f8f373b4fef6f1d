/** The LZF stream format (lzf_c.c, lzf_d.c): tokens, their encoding, their expansion, and the decoder
    as a function. */
module LzfFormat {
  import opened Bytes

  const MAX_LIT := 32
  const MAX_OFF := 8192
  const MAX_REF := 264

  /** A literal run, or a back reference of len bytes that starts off + 1 bytes before the end. */
  datatype Token = Literal(bytes: seq<byte>) | BackRef(off: nat, len: nat)

  predicate ValidToken(t: Token) {
    match t
    case Literal(bytes) => 1 <= |bytes| <= MAX_LIT
    case BackRef(off, len) => off < MAX_OFF && 3 <= len <= MAX_REF
  }

  function EncodeToken(t: Token): (s: seq<byte>)
    requires ValidToken(t)
    ensures |s| >= 2
  {
    match t
    case Literal(bytes) => [|bytes| - 1] + bytes
    case BackRef(off, len) =>
      if len - 2 < 7 then [off / 256 + (len - 2) * 32, off % 256]
      else [off / 256 + 7 * 32, len - 2 - 7, off % 256]
  }

  /** The layout of the bytes: three bits of zero and the length less one; or three bits of the length less two, seven
      for the longer ones whose length less nine is in the next byte, and thirteen bits of the offset, high bits
      first. */
  lemma {:induction false} TokenLayout(t: Token)
    requires ValidToken(t)
    ensures var s := EncodeToken(t);
      if t.Literal? then s[0] / 32 == 0 && s[0] % 32 == |t.bytes| - 1 && s[1..] == t.bytes else
      && (t.len <= 8 ==> |s| == 2 && s[0] / 32 == t.len - 2)
      && (t.len >= 9 ==> |s| == 3 && s[0] / 32 == 7 && s[1] as int == t.len - 9)
      && s[0] as int % 32 * 256 + s[|s| - 1] as int == t.off
  {
    if t.BackRef? {
      ControlByte(t.off / 256, if t.len - 2 < 7 then t.len - 2 else 7);
    }
  }

  predicate AllValid(ts: seq<Token>) {
    forall i :: 0 <= i < |ts| ==> ValidToken(ts[i])
  }

  function EncodeAll(ts: seq<Token>): (s: seq<byte>)
    requires AllValid(ts)
  {
    if ts == [] then [] else EncodeToken(ts[0]) + EncodeAll(ts[1..])
  }

  /** n bytes appended one at a time, each a copy of the byte off + 1 positions before it; the copy may
      run into the bytes it has just appended. */
  function CopyBack(out: seq<byte>, off: nat, n: nat): (r: seq<byte>)
    requires off < |out|
    ensures |r| == |out| + n && r[..|out|] == out
    decreases n
  {
    if n == 0 then out else CopyBack(out + [out[|out| - 1 - off]], off, n - 1)
  }

  lemma CopyBackStep(out: seq<byte>, off: nat, n: nat)
    requires off < |out|
    ensures CopyBack(out, off, 0) == out
    ensures n > 0 ==> CopyBack(out, off, n) == CopyBack(out + [out[|out| - 1 - off]], off, n - 1)
  {
  }

  predicate Reaches(t: Token, have: nat) {
    t.BackRef? ==> t.off < have
  }

  /** The output after one token. */
  function Expand(t: Token, out: seq<byte>): (r: seq<byte>)
    requires Reaches(t, |out|)
  {
    match t
    case Literal(bytes) => out + bytes
    case BackRef(off, len) => CopyBack(out, off, len)
  }

  /** Every back reference reaches only bytes already produced. */
  predicate Expandable(ts: seq<Token>, out: seq<byte>) {
    ts == [] || (Reaches(ts[0], |out|) && Expandable(ts[1..], Expand(ts[0], out)))
  }

  function ExpandAll(ts: seq<Token>, out: seq<byte>): (r: seq<byte>)
    requires Expandable(ts, out)
    ensures |out| <= |r|
  {
    if ts == [] then out else ExpandAll(ts[1..], Expand(ts[0], out))
  }

  // ----- the decoder

  datatype Decoded = Done(out: seq<byte>) | TooBig | Invalid

  /** One turn of the loop of lzf_decompress. */
  datatype Turn = More(rest: seq<byte>, out: seq<byte>) | Stop(error: Decoded)

  function DecodeTurn(inp: seq<byte>, out: seq<byte>, cap: nat): (t: Turn)
    requires inp != []
    ensures t.More? ==> |t.rest| < |inp| && t.rest == inp[|inp| - |t.rest|..]
    ensures t.More? ==> |out| < |t.out| <= cap && t.out[..|out|] == out
  {
    var ctrl := inp[0];
    if ctrl < 32 then
      var n := ctrl + 1;
      if |out| + n > cap then Stop(TooBig)
      else if 1 + n > |inp| then Stop(Invalid)
      else More(inp[1 + n..], out + inp[1..1 + n])
    else if |inp| < 2 then Stop(Invalid)
    else if ctrl / 32 == 7 && |inp| < 3 then Stop(Invalid)
    else
      var long := ctrl / 32 == 7;
      var len := if long then 7 + inp[1] as int else ctrl / 32;
      var off := (ctrl as int) % 32 * 256 + (if long then inp[2] else inp[1]);
      if |out| + len + 2 > cap then Stop(TooBig)
      else if off + 1 > |out| then Stop(Invalid)
      else More(inp[if long then 3 else 2..], CopyBack(out, off, len + 2))
  }

  /** The whole decoder on a non-empty input. */
  function Decode(inp: seq<byte>, out: seq<byte>, cap: nat): (r: Decoded)
    requires inp != []
    ensures r.Done? ==> |out| < |r.out| <= cap
    decreases |inp|
  {
    match DecodeTurn(inp, out, cap)
    case Stop(error) => error
    case More(rest, out') => if rest == [] then Done(out') else Decode(rest, out', cap)
  }

  lemma {:induction false} TurnOfLiteral(bytes: seq<byte>, rest: seq<byte>, out: seq<byte>, cap: nat)
    requires ValidToken(Literal(bytes)) && |out| + |bytes| <= cap
    ensures DecodeTurn(EncodeToken(Literal(bytes)) + rest, out, cap) == More(rest, out + bytes)
  {
    hide CopyBack;
    var inp := EncodeToken(Literal(bytes)) + rest;
    assert inp[1..1 + |bytes|] == bytes;
    assert inp[1 + |bytes|..] == rest;
  }

  lemma ControlByte(hi: nat, k: nat)
    requires hi < 32
    ensures (hi + k * 32) / 32 == k && (hi + k * 32) % 32 == hi
  {
  }

  lemma {:induction false} DecodeShort(inp: seq<byte>, out: seq<byte>, cap: nat, hi: nat, k: nat)
    requires |inp| >= 2 && inp[0] == hi + k * 32 && hi < 32 && 1 <= k <= 6
    requires hi * 256 + inp[1] < |out| && |out| + k + 2 <= cap
    ensures DecodeTurn(inp, out, cap) == More(inp[2..], CopyBack(out, hi * 256 + inp[1], k + 2))
  {
    hide CopyBack;
    ControlByte(hi, k);
  }

  lemma {:induction false} DecodeLong(inp: seq<byte>, out: seq<byte>, cap: nat, hi: nat)
    requires |inp| >= 3 && inp[0] == hi + 7 * 32 && hi < 32
    requires hi * 256 + inp[2] < |out| && |out| + 9 + inp[1] as int <= cap
    ensures DecodeTurn(inp, out, cap) == More(inp[3..], CopyBack(out, hi * 256 + inp[2], 9 + inp[1] as int))
  {
    hide CopyBack;
    ControlByte(hi, 7);
  }

  lemma {:induction false} TurnOfBackRef(off: nat, len: nat, rest: seq<byte>, out: seq<byte>, cap: nat)
    requires ValidToken(BackRef(off, len)) && off < |out| && |out| + len <= cap
    ensures DecodeTurn(EncodeToken(BackRef(off, len)) + rest, out, cap) == More(rest, CopyBack(out, off, len))
  {
    hide CopyBack, DecodeTurn;
    var inp := EncodeToken(BackRef(off, len)) + rest;
    var hi := off / 256;
    assert off == hi * 256 + off % 256;
    if len - 2 < 7 {
      DecodeShort(inp, out, cap, hi, len - 2);
      assert inp[2..] == rest;
    } else {
      DecodeLong(inp, out, cap, hi);
      assert inp[3..] == rest;
    }
  }

  /** One encoded token is decoded by one turn, whatever follows it. */
  lemma {:induction false} TurnOfToken(t: Token, rest: seq<byte>, out: seq<byte>, cap: nat)
    requires ValidToken(t) && Reaches(t, |out|) && |Expand(t, out)| <= cap
    ensures DecodeTurn(EncodeToken(t) + rest, out, cap) == More(rest, Expand(t, out))
  {
    hide DecodeTurn, EncodeToken;
    match t {
      case Literal(bytes) => TurnOfLiteral(bytes, rest, out, cap);
      case BackRef(off, len) => TurnOfBackRef(off, len, rest, out, cap);
    }
  }

  /** Decoding an encoded token list expands it, provided the result fits. */
  lemma {:induction false} DecodeOfEncode(ts: seq<Token>, out: seq<byte>, cap: nat)
    requires ts != [] && AllValid(ts) && Expandable(ts, out) && |ExpandAll(ts, out)| <= cap
    ensures EncodeAll(ts) != []
    ensures Decode(EncodeAll(ts), out, cap) == Done(ExpandAll(ts, out))
  {
    var out' := Expand(ts[0], out);
    TurnOfToken(ts[0], EncodeAll(ts[1..]), out, cap);
    if ts[1..] == [] {
      assert EncodeAll(ts[1..]) == [];
    } else {
      DecodeOfEncode(ts[1..], out', cap);
    }
  }

  lemma SplitHead(s: seq<byte>, n: nat)
    requires 2 <= n <= 3 && n <= |s|
    ensures s == (if n == 2 then [s[0], s[1]] else [s[0], s[1], s[2]]) + s[n..]
  {
  }

  /** A successful turn has read exactly one encoded token. */
  lemma TokenOfTurn(inp: seq<byte>, out: seq<byte>, cap: nat) returns (t: Token)
    requires inp != [] && DecodeTurn(inp, out, cap).More?
    ensures ValidToken(t) && Reaches(t, |out|)
    ensures inp == EncodeToken(t) + DecodeTurn(inp, out, cap).rest
    ensures Expand(t, out) == DecodeTurn(inp, out, cap).out
  {
    hide CopyBack;
    var ctrl: int := inp[0];
    if ctrl < 32 {
      t := Literal(inp[1..2 + ctrl]);
    } else if ctrl / 32 == 7 {
      t := BackRef(ctrl % 32 * 256 + inp[2], 9 + inp[1] as int);
      SplitHead(inp, 3);
    } else {
      t := BackRef(ctrl % 32 * 256 + inp[1], ctrl / 32 + 2);
      SplitHead(inp, 2);
    }
  }

  /** Whatever the decoder accepts is the encoding of a token list, and it answers with its expansion. */
  lemma {:induction false} DecodeSound(inp: seq<byte>, out: seq<byte>, cap: nat) returns (ts: seq<Token>)
    requires inp != [] && Decode(inp, out, cap).Done?
    ensures AllValid(ts) && EncodeAll(ts) == inp
    ensures Expandable(ts, out) && ExpandAll(ts, out) == Decode(inp, out, cap).out
    decreases |inp|
  {
    hide EncodeToken, ValidToken, Expand;
    var turn := DecodeTurn(inp, out, cap);
    var t := TokenOfTurn(inp, out, cap);
    var tail := [];
    if turn.rest != [] {
      tail := DecodeSound(turn.rest, turn.out, cap);
    }
    ts := [t] + tail;
    assert ts[1..] == tail && ts[0] == t;
  }

  // ----- the two errors

  /** An answer other than TooBig is the answer for any larger output buffer. */
  lemma {:induction false} MoreRoom(inp: seq<byte>, out: seq<byte>, cap: nat, more: nat)
    requires inp != [] && cap <= more && !Decode(inp, out, cap).TooBig?
    ensures Decode(inp, out, more) == Decode(inp, out, cap)
    decreases |inp|
  {
    hide CopyBack;
    var turn := DecodeTurn(inp, out, cap);
    if turn.More? && turn.rest != [] {
      MoreRoom(turn.rest, turn.out, cap, more);
    }
  }

  /** With room for 264 bytes for each byte of the input the answer is never TooBig. */
  lemma {:induction false} EnoughRoom(inp: seq<byte>, out: seq<byte>, cap: nat)
    requires inp != [] && |out| + MAX_REF * |inp| <= cap
    ensures !Decode(inp, out, cap).TooBig?
    decreases |inp|
  {
    hide CopyBack;
    var turn := DecodeTurn(inp, out, cap);
    if turn.More? && turn.rest != [] {
      EnoughRoom(turn.rest, turn.out, cap);
    }
  }

  /** A token that is cut off or reaches too far back, and would not fit either: a literal run is TooBig before its
      bytes are looked for; of a back reference all bytes must be there, then it is TooBig before its offset is looked
      at. */
  lemma {:induction false} WhichError(inp: seq<byte>, t: Token, n: nat, out: seq<byte>, cap: nat)
    requires ValidToken(t) && 1 <= n <= |EncodeToken(t)| && inp == EncodeToken(t)[..n]
    requires |out| + (if t.Literal? then |t.bytes| else t.len) > cap
    ensures Decode(inp, out, cap) == if t.BackRef? && n < |EncodeToken(t)| then Invalid else TooBig
  {
    hide CopyBack;
    match t
    case Literal(bytes) =>
    case BackRef(off, len) =>
      ControlByte(off / 256, if len - 2 < 7 then len - 2 else 7);
  }

  /** Appending a token. */
  lemma {:induction false} EncodeSnoc(ts: seq<Token>, t: Token)
    requires AllValid(ts) && ValidToken(t)
    ensures EncodeAll(ts + [t]) == EncodeAll(ts) + EncodeToken(t)
  {
    hide ValidToken, EncodeToken;
    if ts == [] {
      assert EncodeAll([t][1..]) == [];
      assert ts + [t] == [t];
      assert EncodeAll([t]) == EncodeToken(t) + EncodeAll([t][1..]);
    } else {
      EncodeSnoc(ts[1..], t);
      assert (ts + [t])[1..] == ts[1..] + [t] && (ts + [t])[0] == ts[0];
      assert EncodeAll(ts + [t]) == EncodeToken(ts[0]) + (EncodeAll(ts[1..]) + EncodeToken(t));
    }
  }

  lemma {:induction false} ExpandSnoc(ts: seq<Token>, t: Token, out: seq<byte>)
    requires Expandable(ts, out) && Reaches(t, |ExpandAll(ts, out)|)
    ensures Expandable(ts + [t], out)
    ensures ExpandAll(ts + [t], out) == Expand(t, ExpandAll(ts, out))
  {
    if ts == [] {
      assert ts + [t] == [t];
    } else {
      ExpandSnoc(ts[1..], t, Expand(ts[0], out));
      assert (ts + [t])[1..] == ts[1..] + [t];
    }
  }

  /** A back reference reproduces the next n bytes of s when they repeat the bytes off + 1 before them. */
  lemma {:induction false} CopyBackMatches(s: seq<byte>, ip: nat, off: nat, n: nat)
    requires off < ip && ip + n <= |s|
    requires forall j :: ip <= j < ip + n ==> s[j] == s[j - off - 1]
    ensures CopyBack(s[..ip], off, n) == s[..ip + n]
    decreases n
  {
    if n > 0 {
      assert s[..ip] + [s[ip - off - 1]] == s[..ip + 1];
      CopyBackMatches(s, ip + 1, off, n - 1);
    }
  }
}
