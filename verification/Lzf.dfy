/** lzf_compress (lzf_c.c) and lzf_decompress (lzf_d.c) on byte buffers. */
module Lzf {
  import opened Bytes
  import opened LzfFormat
  import opened LzfParse

  // ----- lzf_decompress

  /** The literal copy: n bytes of the input. */
  method CopyLiterals(inp: seq<byte>, ip: nat, out: array<byte>, op: nat, n: nat)
    requires 0 < n && ip + n <= |inp| && op + n <= out.Length
    modifies out
    ensures out[..op + n] == old(out[..op]) + inp[ip..ip + n]
  {
    var i := 0;
    while i < n
      invariant i <= n && out[..op + i] == old(out[..op]) + inp[ip..ip + i]
    {
      out[op + i] := inp[ip + i];
      assert out[..op + i + 1] == out[..op + i] + [inp[ip + i]];
      i := i + 1;
    }
  }

  /** The forward copy of a back reference, one byte at a time, possibly over bytes just written. */
  method CopyReference(out: array<byte>, op: nat, off: nat, n: nat)
    requires off < op && op + n <= out.Length
    modifies out
    ensures out[..op + n] == CopyBack(old(out[..op]), off, n)
  {
    hide CopyBack;
    var ref := op - off - 1;
    var i := 0;
    ghost var o := out[..op];
    while i < n
      invariant i <= n
      invariant CopyBack(out[..op + i], off, n - i) == CopyBack(o, off, n)
    {
      ghost var before := out[..op + i];
      CopyBackStep(before, off, n - i);
      out[op + i] := out[ref + i];
      assert out[..op + i + 1] == before + [before[op + i - 1 - off]];
      i := i + 1;
    }
    CopyBackStep(out[..op + n], off, 0);
  }

  datatype Errno = NoError | E2BIG | EINVAL

  function ErrnoOf(r: Decoded): Errno {
    match r
    case Done(_) => NoError
    case TooBig => E2BIG
    case Invalid => EINVAL
  }

  /** The outcome of one turn of the loop: an error, or new positions. */
  predicate TurnDone(t: Turn, inp: seq<byte>, o: seq<byte>, errno: Errno, ip: nat, op: nat, out_len: nat) {
    match t
    case Stop(e) => errno == ErrnoOf(e) && errno != NoError
    case More(rest, o') =>
      errno == NoError && ip <= |inp| && inp[ip..] == rest && op <= out_len && op <= |o| && o[..op] == o'
  }

  /** A turn that reads a literal run. */
  method LiteralTurn(inp: seq<byte>, ip0: nat, out: array<byte>, op: nat, out_len: nat) returns (errno: Errno, n: nat)
    requires ip0 < |inp| && inp[ip0] < 32 && op <= out_len <= out.Length
    modifies out
    ensures TurnDone(DecodeTurn(inp[ip0..], old(out[..op]), out_len), inp, out[..], errno, ip0 + 1 + n, op + n, out_len)
  {
    ghost var p := inp[ip0..];
    var ip := ip0 + 1;
    n := inp[ip0] + 1;
    if op + n > out_len { return E2BIG, n; }
    if ip + n > |inp| { return EINVAL, n; }
    CopyLiterals(inp, ip, out, op, n);
    assert p[1..1 + n] == inp[ip..ip + n] && p[1 + n..] == inp[ip + n..];
    errno := NoError;
  }

  /** A turn that reads a back reference. */
  method ReferenceTurn(inp: seq<byte>, ip0: nat, out: array<byte>, op0: nat, out_len: nat)
      returns (errno: Errno, ip: nat, op: nat)
    requires ip0 < |inp| && inp[ip0] >= 32 && op0 <= out_len <= out.Length
    modifies out
    ensures TurnDone(DecodeTurn(inp[ip0..], old(out[..op0]), out_len), inp, out[..], errno, ip, op, out_len)
  {
    hide CopyBack;
    ghost var p := inp[ip0..];
    var ctrl := inp[ip0];
    ip, op := ip0 + 1, op0;
    var len: nat := ctrl / 32;
    var off: nat := (ctrl as int) % 32 * 256;
    if ip >= |inp| { return EINVAL, ip, op; }
    assert p[1] == inp[ip];
    if len == 7 {
      len := len + inp[ip];
      ip := ip + 1;
      if ip >= |inp| { return EINVAL, ip, op; }
      assert p[2] == inp[ip];
    }
    off := off + inp[ip];
    ip := ip + 1;
    if op + len + 2 > out_len { return E2BIG, ip, op; }
    if op < off + 1 { return EINVAL, ip, op; }
    CopyReference(out, op, off, len + 2);
    assert p[ip - ip0..] == inp[ip..];
    op := op + len + 2;
    errno := NoError;
  }

  /** One turn of the loop, with the input position ip and the output position op. */
  method DecompressTurn(inp: seq<byte>, ip0: nat, out: array<byte>, op0: nat, out_len: nat)
      returns (errno: Errno, ip: nat, op: nat)
    requires ip0 < |inp| && op0 <= out_len <= out.Length
    modifies out
    ensures TurnDone(DecodeTurn(inp[ip0..], old(out[..op0]), out_len), inp, out[..], errno, ip, op, out_len)
  {
    if inp[ip0] < 32 {
      var n;
      errno, n := LiteralTurn(inp, ip0, out, op0, out_len);
      ip, op := ip0 + 1 + n, op0 + n;
    } else {
      errno, ip, op := ReferenceTurn(inp, ip0, out, op0, out_len);
    }
  }

  /** lzf_decompress: the number of bytes produced, 0 together with an error when the input is refused. */
  method Decompress(inp: seq<byte>, out: array<byte>, out_len: nat) returns (errno: Errno, n: nat)
    requires inp != [] && out_len <= out.Length
    modifies out
    ensures errno == ErrnoOf(Decode(inp, [], out_len))
    ensures errno != NoError ==> n == 0
    ensures errno == NoError ==> 0 < n <= out_len && Decode(inp, [], out_len) == Done(out[..n])
  {
    var ip: nat, op: nat := 0, 0;
    assert inp[0..] == inp;
    while true
      invariant ip < |inp| && op <= out_len <= out.Length
      invariant Decode(inp[ip..], out[..op], out_len) == Decode(inp, [], out_len)
      decreases |inp| - ip
    {
      hide DecodeTurn;
      ghost var o := out[..op];
      var e, ip', op' := DecompressTurn(inp, ip, out, op, out_len);
      if e != NoError {
        return e, 0;
      }
      assert out[..][..op'] == out[..op'];
      assert DecodeTurn(inp[ip..], o, out_len) == More(inp[ip'..], out[..op']);
      ip, op := ip', op';
      if ip >= |inp| {
        break;
      }
    }
    errno, n := NoError, op;
  }

  // ----- lzf_compress

  /** The first n bytes of o are the encoding of the tokens ts, which expand to the first c bytes of inp. */
  predicate Emitted(inp: seq<byte>, o: seq<byte>, ts: seq<Token>, c: int, n: int) {
    && 0 <= c <= |inp| && 0 <= n <= |o|
    && AllValid(ts) && Expandable(ts, [])
    && EncodeAll(ts) == o[..n] && ExpandAll(ts, []) == inp[..c]
  }

  /** The loop state: tokens emitted, then an open literal run of lit bytes behind a free header byte. */
  predicate Open(inp: seq<byte>, o: seq<byte>, ts: seq<Token>, ip: int, op: int, lit: int) {
    && 0 <= lit < MAX_LIT && lit <= ip <= |inp| && lit + 1 <= op <= |o|
    && Emitted(inp, o, ts, ip - lit, op - lit - 1)
    && o[op - lit..op] == inp[ip - lit..ip]
  }

  /** Writing the header of the open run turns it into a token. */
  lemma CloseRun(inp: seq<byte>, o: seq<byte>, o': seq<byte>, ts: seq<Token>, ip: int, op: int, lit: int)
    requires 1 <= lit <= MAX_LIT && lit <= ip <= |inp| && lit + 1 <= op <= |o|
    requires Emitted(inp, o, ts, ip - lit, op - lit - 1) && o[op - lit..op] == inp[ip - lit..ip]
    requires o' == o[op - lit - 1 := lit - 1]
    ensures Emitted(inp, o', ts + [Literal(inp[ip - lit..ip])], ip, op)
  {
    hide Expandable, ExpandAll, EncodeAll;
    var t := Literal(inp[ip - lit..ip]);
    EncodeSnoc(ts, t);
    ExpandSnoc(ts, t, []);
    HeaderWritten(o, op - lit - 1, op, lit - 1);
    assert inp[..ip] == inp[..ip - lit] + inp[ip - lit..ip];
  }

  lemma HeaderWritten(o: seq<byte>, n: int, op: int, header: byte)
    requires 0 <= n < op <= |o|
    ensures o[n := header][..op] == o[..n] + ([header] + o[n + 1..op])
  {
  }

  /** A back reference to a repetition of the input extends the expansion by its length. */
  lemma AddMatch(inp: seq<byte>, o: seq<byte>, ts: seq<Token>, c: int, n: int, off: nat, len: nat)
    requires Emitted(inp, o, ts, c, n) && ValidToken(BackRef(off, len)) && off < c && c + len <= |inp|
    requires forall j :: c <= j < c + len ==> inp[j] == inp[j - off - 1]
    requires n + |EncodeToken(BackRef(off, len))| <= |o|
    requires o[n..n + |EncodeToken(BackRef(off, len))|] == EncodeToken(BackRef(off, len))
    ensures Emitted(inp, o, ts + [BackRef(off, len)], c + len, n + |EncodeToken(BackRef(off, len))|)
  {
    hide EncodeToken;
    var t := BackRef(off, len);
    EncodeSnoc(ts, t);
    ExpandSnoc(ts, t, []);
    CopyBackMatches(inp, c, off, len);
    assert o[..n + |EncodeToken(t)|] == o[..n] + o[n..n + |EncodeToken(t)|];
  }

  /** Match extension: the length of a repetition of the bytes at ref found at ip. */
  method MatchLength(inp: seq<byte>, ref: nat, ip: nat) returns (len: nat)
    requires ref < ip && ip + 4 < |inp|
    requires inp[ref] == inp[ip] && inp[ref + 1] == inp[ip + 1] && inp[ref + 2] == inp[ip + 2]
    ensures 3 <= len <= MAX_REF && ip + len <= |inp| && Longest(inp, ref, ip, len)
    ensures forall j :: ip <= j < ip + len ==> inp[j] == inp[j - (ip - ref)]
  {
    len := 2;
    var maxlen := |inp| - ip - len;
    if maxlen > MAX_REF { maxlen := MAX_REF; }
    var mismatch := false;
    if maxlen > 16 {
      len, mismatch := Unrolled(inp, ref, ip);
    }
    if !mismatch {
      len := len + 1;
      while len < maxlen && inp[ref + len] == inp[ip + len]
        invariant 3 <= len && (len <= maxlen || (len == 19 && maxlen > 16))
        invariant forall j :: ip <= j < ip + len ==> inp[j] == inp[j - (ip - ref)]
      {
        len := len + 1;
      }
    }
  }

  /** The sixteen unrolled comparisons of the match extension. */
  method Unrolled(inp: seq<byte>, ref: nat, ip: nat) returns (len: nat, mismatch: bool)
    requires ref < ip && ip + 18 < |inp|
    requires inp[ref] == inp[ip] && inp[ref + 1] == inp[ip + 1] && inp[ref + 2] == inp[ip + 2]
    ensures if mismatch then 3 <= len <= 18 && inp[ref + len] != inp[ip + len]
      else len == 18 && inp[ref + len] == inp[ip + len]
    ensures forall j :: ip <= j < ip + len ==> inp[j] == inp[j - (ip - ref)]
  {
    len, mismatch := 2, false;
    while len < 18 && !mismatch
      invariant 2 <= len <= 18 && (mismatch ==> len >= 3)
      invariant forall j :: ip <= j < ip + len ==> inp[j] == inp[j - (ip - ref)]
      invariant if mismatch then inp[ip + len] != inp[ref + len] else inp[ip + len] == inp[ref + len]
      decreases 18 - len, !mismatch
    {
      len := len + 1;
      if inp[ref + len] != inp[ip + len] { mismatch := true; }
    }
  }

  /** The emitted bytes cost at most one header byte for every 32 bytes they stand for. */
  predicate Small(c: int, n: int) {
    n <= c + c / 32
  }

  /** The bytes of a back reference token. */
  method EmitReference(out: array<byte>, op0: nat, off: nat, octets: nat) returns (op: nat)
    requires ValidToken(BackRef(off, octets)) && op0 + 3 <= out.Length
    modifies out
    ensures op == op0 + |EncodeToken(BackRef(off, octets))| && op <= op0 + 3
    ensures out[op0..op] == EncodeToken(BackRef(off, octets)) && out[..op0] == old(out[..op0])
    ensures forall k :: op <= k < out.Length ==> out[k] == old(out[k])
  {
    op := op0;
    var len := octets - 2;
    if len < 7 {
      out[op] := off / 256 + len * 32;
      op := op + 1;
    } else {
      out[op] := off / 256 + 7 * 32;
      out[op + 1] := len - 7;
      op := op + 2;
    }
    out[op] := off % 256;
    op := op + 1;
  }

  /** Closes the open literal run, if it holds any byte: its header is written before it; an empty run is
      undone. */
  method StopRun(inp: seq<byte>, out: array<byte>, ip: nat, op0: nat, lit: nat, ghost ts0: seq<Token>)
      returns (op: nat, ghost ts: seq<Token>)
    requires lit <= MAX_LIT && lit <= ip <= |inp| && lit + 1 <= op0 <= out.Length
    requires Emitted(inp, out[..], ts0, ip - lit, op0 - lit - 1) && out[op0 - lit..op0] == inp[ip - lit..ip]
    modifies out
    ensures op == (if lit == 0 then op0 - 1 else op0)
    ensures Emitted(inp, out[..], ts, ip, op) && ts == Closed(inp, ip, Parse(ts0, lit))
    ensures forall k :: 0 <= k < out.Length && k != op0 - lit - 1 ==> out[k] == old(out[k])
  {
    hide EncodeToken, Emitted;
    ghost var o := out[..];
    out[op0 - lit - 1] := (lit - 1) % 256;
    op, ts := op0, ts0;
    if lit == 0 {
      op := op - 1;
      EmittedSame(inp, o, out[..], ts0, ip, op);
    } else {
      ts := ts0 + [Literal(inp[ip - lit..ip])];
      CloseRun(inp, o, out[..], ts0, ip, op0, lit);
    }
  }

  lemma EmittedSame(inp: seq<byte>, o: seq<byte>, o': seq<byte>, ts: seq<Token>, c: int, n: int)
    requires Emitted(inp, o, ts, c, n) && n <= |o'| && o'[..n] == o[..n]
    ensures Emitted(inp, o', ts, c, n)
  {
  }

  /** One more literal byte; a run of 32 bytes is closed and a new one started. */
  method LiteralStep(inp: seq<byte>, out: array<byte>, ip: nat, op0: nat, lit0: nat, ghost ts0: seq<Token>)
      returns (op: nat, lit: nat, ghost ts: seq<Token>)
    requires ip < |inp| && op0 + 1 < out.Length && Open(inp, out[..], ts0, ip, op0, lit0)
      && Small(ip - lit0, op0 - lit0 - 1)
    modifies out
    ensures Open(inp, out[..], ts, ip + 1, op, lit) && Small(ip + 1 - lit, op - lit - 1)
    ensures lit == (if lit0 + 1 == MAX_LIT then 0 else lit0 + 1) && op == op0 + 1 + (if lit == 0 then 1 else 0)
    ensures Parse(ts, lit) == After(inp, ip, Parse(ts0, lit0), Lit)
    ensures forall k :: op0 < k < out.Length ==> out[k] == old(out[k])
  {
    hide EncodeToken, Emitted;
    ghost var o := out[..];
    lit, op, ts := lit0 + 1, op0 + 1, ts0;
    out[op0] := inp[ip];
    assert out[op - lit..op] == o[op0 - lit0..op0] + [inp[ip]];
    assert inp[ip + 1 - lit..ip + 1] == inp[ip - lit0..ip] + [inp[ip]];
    EmittedSame(inp, o, out[..], ts0, ip - lit0, op0 - lit0 - 1);
    if lit == MAX_LIT {
      op, ts := StopRun(inp, out, ip + 1, op, lit, ts);
      lit := 0;
      op := op + 1;
      assert out[op - 0..op] == [] && inp[ip + 1 - 0..ip + 1] == [];
    }
  }

  /** The output is full with tokens, and more than four bytes of the input are left. */
  ghost predicate Filled(inp: seq<byte>, o: seq<byte>, out_len: nat) {
    exists ts: seq<Token>, c: int :: Emitted(inp, o, ts, c, out_len) && c + 4 < |inp|
  }

  /** A match at ref: the run is stopped, the reference emitted and a new run started, unless the output
      may run out. */
  method MatchStep(inp: seq<byte>, out: array<byte>, out_len: nat, ip0: nat, op0: nat, lit: nat, ref: nat,
      ghost ts0: seq<Token>)
      returns (ok: bool, ip: nat, op: nat, ghost ts: seq<Token>, ghost len: nat)
    requires Open(inp, out[..], ts0, ip0, op0, lit) && Small(ip0 - lit, op0 - lit - 1)
    requires op0 <= out_len + 1 && out_len < out.Length
    requires 0 < ref < ip0 && ip0 - ref - 1 < MAX_OFF && ip0 + 4 < |inp|
    requires inp[ref] == inp[ip0] && inp[ref + 1] == inp[ip0 + 1] && inp[ref + 2] == inp[ip0 + 2]
    modifies out
    ensures !ok ==> out_len <= |inp| + |inp| / 32 && out_len <= op0 + 4
    ensures ok ==>
      ip == ip0 + len && Longest(inp, ref, ip0, len)
      && Parse(ts, 0) == After(inp, ip0, Parse(ts0, lit), Match(ref, len))
    ensures ok ==> ip0 + 3 <= ip && op <= out_len && Open(inp, out[..], ts, ip, op, 0) && Small(ip, op - 1)
    ensures forall k :: out_len < k < out.Length ==> out[k] == old(out[k])
    ensures out[out_len] == old(out[out_len])
      || (!ok && lit == 0 && op0 == out_len + 1 && Filled(inp, out[..], out_len))
  {
    hide EncodeToken, Emitted, Longest, Closed;
    op, ts := StopRun(inp, out, ip0, op0, lit, ts0);
    if op + 3 + 1 >= out_len {
      return false, ip0, op, ts, 0;
    }
    var octets := MatchLength(inp, ref, ip0);
    len := octets;
    var off := ip0 - ref - 1;
    ghost var o, n := out[..], op;
    op := EmitReference(out, op, off, octets);
    EmittedSame(inp, o, out[..], ts, ip0, n);
    TokenCost(off, len);
    AddMatch(inp, out[..], ts, ip0, n, off, len);
    ts := ts + [BackRef(off, len)];
    ok, ip, op := true, ip0 + octets, op + 1;
  }

  /** A back reference costs less than the bytes it stands for, by at least the header of a literal run. */
  lemma TokenCost(off: nat, len: nat)
    requires ValidToken(BackRef(off, len))
    ensures |EncodeToken(BackRef(off, len))| + 1 <= len
  {
  }

  /** The pointer read from the hash table points at three bytes equal to those at ip, less than MAX_OFF
      bytes before it and after the first byte of the input. */
  predicate Candidate(inp: seq<byte>, ip: nat, ref: int)
    requires ip <= |inp|
  {
    && 0 <= ip - ref - 1 < MAX_OFF && ip + 4 < |inp| && ref > 0
    && inp[ref] == inp[ip] && inp[ref + 1] == inp[ip + 1] && inp[ref + 2] == inp[ip + 2]
  }

  /** After a match: the two positions before ip enter the hash table. */
  method Remember(inp: seq<byte>, ip: nat, htab: array<int>, ghost first: seq<int>, ghost vis: set<int>)
      returns (hval: int)
    requires 2 <= ip < |inp| - 2 && htab.Length == HSIZE
    requires Tabled(inp, first, vis, htab[..]) && forall q :: q in vis ==> q < ip - 2
    modifies htab
    ensures Rolled(hval, inp, ip) && Tabled(inp, first, vis + {ip - 2, ip - 1}, htab[..])
  {
    hide Rolled, Frst, Next, Idx, Tabled, Slot;
    RolledFirst(inp, ip - 2);
    hval := Frst(inp, ip - 2);
    hval := Enter(inp, ip - 2, hval, htab, first, vis);
    hval := Enter(inp, ip - 1, hval, htab, first, vis + {ip - 2});
    assert vis + {ip - 2} + {ip - 1} == vis + {ip - 2, ip - 1};
  }

  /** A position enters the hash table. */
  method Enter(inp: seq<byte>, p: nat, hval0: int, htab: array<int>, ghost first: seq<int>, ghost vis: set<int>)
      returns (hval: int)
    requires p + 2 < |inp| && htab.Length == HSIZE && Rolled(hval0, inp, p)
    requires Tabled(inp, first, vis, htab[..]) && forall q :: q in vis ==> q < p
    modifies htab
    ensures Rolled(hval, inp, p + 1) && Tabled(inp, first, vis + {p}, htab[..])
  {
    hide Rolled, Frst, Next, Idx, Tabled, Slot;
    RolledNext(hval0, inp, p);
    TabledStore(inp, first, vis, htab[..], p);
    hval := Next(hval0, inp, p);
    ghost var tab := htab[..];
    htab[Idx(hval)] := p;
    assert htab[..] == tab[Slot(inp, p) := p];
  }

  /** The parse so far: the steps made lead to ip, the tokens and the open run. */
  ghost predicate Parsing(inp: seq<byte>, first: seq<int>, steps: seq<Step>, ip: int, ts: seq<Token>, lit: nat) {
    Traced(inp, first, steps) && ip == Pos(steps) && ParseOf(inp, steps) == Parse(ts, lit)
  }

  /** The end of lzf_compress: the last bytes are literals, and the run is closed. */
  method LastLiterals(inp: seq<byte>, out: array<byte>, out_len: nat, ip0: nat, op0: nat, lit0: nat,
      ghost ts0: seq<Token>, ghost first: seq<int>, ghost steps0: seq<Step>)
      returns (n: nat, ghost steps: seq<Step>)
    requires |inp| - 2 <= ip0 <= |inp| && op0 + 3 <= out_len < out.Length && inp != []
    requires Open(inp, out[..], ts0, ip0, op0, lit0) && Small(ip0 - lit0, op0 - lit0 - 1)
    requires Parsing(inp, first, steps0, ip0, ts0, lit0)
    modifies out
    ensures 0 < n <= out_len && n <= |inp| + (|inp| + 31) / 32
    ensures forall cap :: cap >= |inp| ==> Decode(out[..n], [], cap) == Done(inp)
    ensures forall k :: out_len <= k < out.Length ==> out[k] == old(out[k])
    ensures Traced(inp, first, steps) && Written(inp, steps, out[..n]) && n <= Used(inp, steps)
  {
    hide EncodeToken, Emitted, Decode, Traced, Pos, ParseOf, Size;
    var ip, op, lit := ip0, op0, lit0;
    ghost var ts := ts0;
    steps := steps0;
    while ip < |inp|
      invariant ip <= |inp| && Open(inp, out[..], ts, ip, op, lit) && Small(ip - lit, op - lit - 1)
      invariant |inp| - ip <= 2 && op + (|inp| - ip) + (if lit + (|inp| - ip) >= MAX_LIT then 1 else 0) <= out_len
      invariant forall k :: out_len <= k < out.Length ==> out[k] == old(out[k])
      invariant Parsing(inp, first, steps, ip, ts, lit)
    {
      TraceStep(inp, first, steps, Lit);
      op, lit, ts := LiteralStep(inp, out, ip, op, lit, ts);
      steps := steps + [Lit];
      ip := ip + 1;
    }
    SizeIs(inp, out[..], ts, ip, op, lit);
    n, ts := StopRun(inp, out, ip, op, lit, ts);
    Finished(inp, out[..], ts, n);
    WrittenIs(inp, steps, out[..], ts, n);
  }

  /** The output encodes exactly the tokens of the parse, which has reached the end of the input. */
  ghost predicate Written(inp: seq<byte>, steps: seq<Step>, o: seq<byte>) {
    Pos(steps) == |inp| && var ts := Closed(inp, |inp|, ParseOf(inp, steps)); AllValid(ts) && EncodeAll(ts) == o
  }

  lemma WrittenIs(inp: seq<byte>, steps: seq<Step>, o: seq<byte>, ts: seq<Token>, n: nat)
    requires Emitted(inp, o, ts, |inp|, n) && Pos(steps) == |inp| && ts == Closed(inp, |inp|, ParseOf(inp, steps))
    ensures Written(inp, steps, o[..n])
  {
  }

  lemma {:induction false} SizeEncoded(ts: seq<Token>)
    requires AllValid(ts)
    ensures |EncodeAll(ts)| == Size(ts)
    decreases |ts|
  {
    if ts != [] {
      var before, t := ts[..|ts| - 1], ts[|ts| - 1];
      assert before + [t] == ts;
      EncodeSnoc(before, t);
      SizeEncoded(before);
    }
  }

  /** The output position is the number of bytes the parse takes. */
  lemma SizeIs(inp: seq<byte>, o: seq<byte>, ts: seq<Token>, ip: int, op: int, lit: int)
    requires Open(inp, o, ts, ip, op, lit)
    ensures op == Size(ts) + lit + 1
  {
    hide Size, EncodeAll;
    SizeEncoded(ts);
  }

  lemma OpenBounds(inp: seq<byte>, o: seq<byte>, ts: seq<Token>, ip: int, op: int, lit: int)
    requires Open(inp, o, ts, ip, op, lit)
    ensures 0 <= lit < MAX_LIT && lit <= ip <= |inp| && lit + 1 <= op <= |o|
  {
  }

  /** lzf_compress: the length of the compressed form, or 0 when it does not fit in out_len bytes. The hash
      table holds offsets into the input; its first content is arbitrary, and so is the byte in memory behind the
      input, which is read when the input has one byte. The output array has one byte past out_len, because an empty
      run is written before the room for it is checked: that byte is written only when a match is found with the
      output full, and the answer is then 0. */
  method Compress(inp: seq<byte>, behind: byte, out: array<byte>, out_len: nat, htab: array<int>)
      returns (n: nat, ghost steps: seq<Step>)
    requires out_len < out.Length && htab.Length == HSIZE
    requires out as object != htab
    modifies out, htab
    ensures n <= out_len && n <= |inp| + (|inp| + 31) / 32
    ensures inp == [] || out_len == 0 ==> n == 0
    ensures inp != [] && out_len >= |inp| + |inp| / 32 + 4 ==> n > 0
    ensures n > 0 ==> forall cap :: cap >= |inp| ==> Decode(out[..n], [], cap) == Done(inp)
    ensures forall k :: out_len < k < out.Length ==> out[k] == old(out[k])
    ensures out[out_len] == old(out[out_len]) || (n == 0 && Filled(inp, out[..], out_len))
    ensures Traced(inp, old(htab[..]), steps) && (n > 0 ==> Written(inp, steps, out[..n]))
    ensures n == 0 && inp != [] && out_len > 0 ==> out_len <= Used(inp, steps) + 4
    ensures Repeats(inp) && inp != [] && out_len >= 3 * (|inp| / 264) + 16 ==> 0 < n <= 3 * (|inp| / 264) + 11
  {
    hide Open, Decode, Filled, Traced, Written, Used, Repeats;
    steps := [];
    if inp == [] || out_len == 0 {
      NoSteps(inp, htab[..]);
      return 0, steps;
    }
    var ok, ip, op, lit;
    ghost var ts, first := [], htab[..];
    ok, ip, op, lit, ts, steps := Scan(inp, behind, out, out_len, htab);
    SizeOfRepeats(inp, first, steps);
    if !ok {
      return 0, steps;
    }
    OpenBounds(inp, out[..], ts, ip, op, lit);
    UsedIs(inp, out[..], first, steps, ts, ip, op, lit);
    if op + 3 > out_len {
      return 0, steps;
    }
    n, steps := LastLiterals(inp, out, out_len, ip, op, lit, ts, first, steps);
    SizeOfRepeats(inp, first, steps);
  }

  lemma NoSteps(inp: seq<byte>, first: seq<int>)
    ensures Traced(inp, first, []) && Parsing(inp, first, [], 0, [], 0) && Visited(inp, []) == {}
  {
  }

  lemma SizeOfRepeats(inp: seq<byte>, first: seq<int>, steps: seq<Step>)
    requires Traced(inp, first, steps)
    ensures Repeats(inp) ==> Used(inp, steps) <= 3 * (|inp| / 264) + 11
  {
    hide Traced, Used, Repeats;
    if Repeats(inp) { RepeatedSize(inp, first, steps); }
  }

  lemma UsedIs(inp: seq<byte>, o: seq<byte>, first: seq<int>, steps: seq<Step>, ts: seq<Token>, ip: int, op: int,
      lit: nat)
    requires Open(inp, o, ts, ip, op, lit) && Parsing(inp, first, steps, ip, ts, lit)
    ensures op == Used(inp, steps)
  {
    hide Open, Traced, ParseOf, Size;
    SizeIs(inp, o, ts, ip, op, lit);
  }

  /** The main loop of lzf_compress. The hash table holds, in every slot, the latest position of that slot that the loop
      has entered. */
  method Scan(inp: seq<byte>, behind: byte, out: array<byte>, out_len: nat, htab: array<int>)
      returns (ok: bool, ip: nat, op: nat, lit: nat, ghost ts: seq<Token>, ghost steps: seq<Step>)
    requires inp != [] && 0 < out_len < out.Length && htab.Length == HSIZE && out as object != htab
    modifies out, htab
    ensures Traced(inp, old(htab[..]), steps)
    ensures forall k :: out_len < k < out.Length ==> out[k] == old(out[k])
    ensures ok ==>
      |inp| - 2 <= ip <= |inp| && op <= out_len + 1 && Open(inp, out[..], ts, ip, op, lit)
      && Small(ip - lit, op - lit - 1) && Parsing(inp, old(htab[..]), steps, ip, ts, lit)
      && out[out_len] == old(out[out_len])
    ensures !ok ==>
      out_len <= Used(inp, steps) + 4 && out_len < |inp| + |inp| / 32 + 4
      && (out[out_len] == old(out[out_len]) || Filled(inp, out[..], out_len))
  {
    hide Open, Decode, Frst, Next, Idx, Filled, Traced, Parsing, Tabled, Slot, Rolled, Used, Holds;
    ip, op, lit, ts, steps := 0, 1, 0, [], [];
    ghost var first := htab[..];
    Started(inp, out[..]);
    NoSteps(inp, first);
    TabledFirst(inp, first);
    var hval := Frst(inp + [behind], ip);
    FirstRolled(inp, behind);
    while ip < |inp| - 2
      invariant 0 <= ip <= |inp| && op <= out_len + 1 && Open(inp, out[..], ts, ip, op, lit)
        && Small(ip - lit, op - lit - 1)
      invariant forall k :: out_len <= k < out.Length ==> out[k] == old(out[k])
      invariant Parsing(inp, first, steps, ip, ts, lit)
      invariant ip + 2 < |inp| ==> Rolled(hval, inp, ip) && Tabled(inp, first, Visited(inp, steps), htab[..])
      decreases |inp| - ip
    {
      OpenBounds(inp, out[..], ts, ip, op, lit);
      UsedIs(inp, out[..], first, steps, ts, ip, op, lit);
      RolledNext(hval, inp, ip);
      Looked(inp, first, steps, ip, ts, lit, htab[..]);
      var ref := htab[Idx(Next(hval, inp, ip))];
      hval := Enter(inp, ip, hval, htab, first, Visited(inp, steps));
      if Candidate(inp, ip, ref) {
        ok, ip, op, hval, ts, steps := MatchTurn(inp, out, out_len, ip, op, lit, ref, htab, first, ts, steps);
        if !ok {
          return;
        }
        lit := 0;
      } else {
        if op >= out_len {
          ok := false;
          return;
        }
        steps := NextLit(inp, first, steps, ip, ts, lit, ref);
        op, lit, ts := LiteralStep(inp, out, ip, op, lit, ts);
        ip := ip + 1;
      }
    }
    TracedSteps(inp, first, steps, ip, ts, lit);
    ok := true;
  }

  /** A match, and the positions that enter the hash table behind it. */
  method MatchTurn(inp: seq<byte>, out: array<byte>, out_len: nat, ip0: nat, op0: nat, lit: nat, ref: nat,
      htab: array<int>, ghost first: seq<int>, ghost ts0: seq<Token>, ghost steps0: seq<Step>)
      returns (ok: bool, ip: nat, op: nat, hval: int, ghost ts: seq<Token>, ghost steps: seq<Step>)
    requires Open(inp, out[..], ts0, ip0, op0, lit) && Small(ip0 - lit, op0 - lit - 1)
    requires op0 <= out_len + 1 && out_len < out.Length && htab.Length == HSIZE && out as object != htab
    requires Parsing(inp, first, steps0, ip0, ts0, lit) && ip0 + 2 < |inp| && op0 == Used(inp, steps0)
    requires Holds(inp, first, Visited(inp, steps0), Slot(inp, ip0), ref) && Candidate(inp, ip0, ref)
    requires Tabled(inp, first, Visited(inp, steps0) + {ip0}, htab[..])
    modifies out, htab
    ensures forall k :: out_len < k < out.Length ==> out[k] == old(out[k])
    ensures ok ==>
      ip0 < ip <= |inp| && op <= out_len && Open(inp, out[..], ts, ip, op, 0) && Small(ip, op - 1)
      && Parsing(inp, first, steps, ip, ts, 0) && out[out_len] == old(out[out_len])
    ensures ok && ip + 2 < |inp| ==> Rolled(hval, inp, ip) && Tabled(inp, first, Visited(inp, steps), htab[..])
    ensures !ok ==>
      steps == steps0 && out_len <= op0 + 4 && out_len <= |inp| + |inp| / 32
      && (out[out_len] == old(out[out_len]) || Filled(inp, out[..], out_len))
  {
    hide *;
    ghost var len := 0;
    Ahead(inp, ip0, ref);
    ok, ip, op, ts, len := MatchStep(inp, out, out_len, ip0, op0, lit, ref, ts0);
    steps, hval := steps0, 0;
    if !ok {
      return;
    }
    OpenBounds(inp, out[..], ts, ip, op, 0);
    steps := NextMatch(inp, first, steps0, ip0, ts0, lit, ref, len, ts);
    if ip >= |inp| - 2 {
      return;
    }
    hval := Remember(inp, ip, htab, first, Visited(inp, steps0) + {ip0});
  }

  lemma Ahead(inp: seq<byte>, ip: nat, ref: int)
    requires ip <= |inp| && Candidate(inp, ip, ref)
    ensures 0 < ref < ip && ip - ref - 1 < MAX_OFF && ip + 4 < |inp|
    ensures inp[ref] == inp[ip] && inp[ref + 1] == inp[ip + 1] && inp[ref + 2] == inp[ip + 2]
  {
  }

  lemma TracedSteps(inp: seq<byte>, first: seq<int>, steps: seq<Step>, ip: int, ts: seq<Token>, lit: nat)
    requires Parsing(inp, first, steps, ip, ts, lit)
    ensures Traced(inp, first, steps)
  {
  }

  lemma FirstRolled(inp: seq<byte>, behind: byte)
    requires inp != []
    ensures 2 < |inp| ==> Rolled(Frst(inp + [behind], 0), inp, 0)
  {
  }

  /** What the slot of the position holds, and where the positions entered so far are. */
  lemma Looked(inp: seq<byte>, first: seq<int>, steps: seq<Step>, ip: nat, ts: seq<Token>, lit: nat, tab: seq<int>)
    requires Parsing(inp, first, steps, ip, ts, lit) && ip + 2 < |inp| && Tabled(inp, first, Visited(inp, steps), tab)
    ensures Traced(inp, first, steps) && |tab| == HSIZE && forall q :: q in Visited(inp, steps) ==> q < ip
    ensures 0 <= Slot(inp, ip) < HSIZE && Holds(inp, first, Visited(inp, steps), Slot(inp, ip), tab[Slot(inp, ip)])
  {
    hide Holds, Idx, Traced, ParseOf;
    VisitedBefore(inp, first, steps);
  }

  lemma NextMatch(inp: seq<byte>, first: seq<int>, steps: seq<Step>, ip: nat, ts: seq<Token>, lit: nat, ref: nat,
      len: nat, ts': seq<Token>) returns (all: seq<Step>)
    requires Parsing(inp, first, steps, ip, ts, lit) && ip + 2 < |inp|
    requires Holds(inp, first, Visited(inp, steps), Slot(inp, ip), ref) && Candidate(inp, ip, ref)
    requires Longest(inp, ref, ip, len) && Parse(ts', 0) == After(inp, ip, Parse(ts, lit), Match(ref, len))
    ensures Parsing(inp, first, all, ip + len, ts', 0)
    ensures ip + len + 2 < |inp| ==> Visited(inp, all) == Visited(inp, steps) + {ip} + {ip + len - 2, ip + len - 1}
    ensures forall q :: q in Visited(inp, steps) ==> q < ip
  {
    hide Traced, Holds, Slot, Longest, After, ParseOf;
    VisitedBefore(inp, first, steps);
    TraceStep(inp, first, steps, Match(ref, len));
    all := steps + [Match(ref, len)];
  }

  lemma NextLit(inp: seq<byte>, first: seq<int>, steps: seq<Step>, ip: nat, ts: seq<Token>, lit: nat, ref: int)
      returns (all: seq<Step>)
    requires Parsing(inp, first, steps, ip, ts, lit) && ip + 2 < |inp|
    requires Holds(inp, first, Visited(inp, steps), Slot(inp, ip), ref) && !Candidate(inp, ip, ref)
    ensures var ps := After(inp, ip, Parse(ts, lit), Lit); Parsing(inp, first, all, ip + 1, ps.ts, ps.lit)
    ensures Visited(inp, all) == Visited(inp, steps) + {ip}
  {
    hide Traced, Holds, Slot, After, ParseOf;
    TraceStep(inp, first, steps, Lit);
    all := steps + [Lit];
  }

  lemma Started(inp: seq<byte>, o: seq<byte>)
    requires |o| >= 1
    ensures Open(inp, o, [], 0, 1, 0) && Small(0, 0)
  {
  }

  lemma Finished(inp: seq<byte>, o: seq<byte>, ts: seq<Token>, n: nat)
    requires Emitted(inp, o, ts, |inp|, n) && inp != []
    ensures n > 0
    ensures forall cap :: cap >= |inp| ==> Decode(o[..n], [], cap) == Done(inp)
  {
    hide EncodeToken;
    assert inp[..|inp|] == inp;
    forall cap | cap >= |inp| ensures Decode(o[..n], [], cap) == Done(inp) {
      DecodeOfEncode(ts, [], cap);
    }
    DecodeOfEncode(ts, [], |inp|);
  }
}
