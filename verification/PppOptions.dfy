/** The option lists of PPP configuration packets (ios-pppd.c; sections 5.2 and 6 of RFC 1661): how
    put_opt writes them and how the handlers walk them. */
module PppOptions {
  import opened Bytes

  datatype Opt = Opt(kind: byte, value: seq<byte>)

  function OptBytes(o: Opt): seq<byte>
    requires |o.value| <= 253
  {
    [o.kind, 2 + |o.value|] + o.value
  }

  function OptsBytes(opts: seq<Opt>): seq<byte>
    requires forall o :: o in opts ==> |o.value| <= 253
  {
    if opts == [] then [] else OptBytes(opts[0]) + OptsBytes(opts[1..])
  }

  /** put_opt: append one option at `off`. */
  method PutOpt(buf: array<byte>, off: nat, kind: byte, value: seq<byte>) returns (next: nat)
    requires |value| <= 253 && off + 2 + |value| <= buf.Length
    modifies buf
    ensures next == off + 2 + |value|
    ensures buf[..] == old(buf[..off]) + OptBytes(Opt(kind, value)) + old(buf[..])[next..]
  {
    next := off;
    buf[next] := kind;
    next := next + 1;
    buf[next] := 2 + |value|;
    next := next + 1;
    forall i | 0 <= i < |value| {
      buf[next + i] := value[i];
    }
    next := next + |value|;
  }

  // ----- the walk -----

  // The loop goes on at `pos`: there is a whole option in front of it.
  predicate AtOption(s: seq<byte>, pos: nat) {
    pos + 2 <= |s| && 2 <= s[pos + 1] && pos + s[pos + 1] <= |s|
  }

  /** The options that the walk from `pos` visits; it stops at the first one that does not fit. */
  function Walk(s: seq<byte>, pos: nat): seq<Opt>
    decreases |s| - pos
  {
    if !AtOption(s, pos) then []
    else [Opt(s[pos], s[pos + 2..pos + s[pos + 1]])] + Walk(s, pos + s[pos + 1])
  }

  lemma OptionWritten(s: seq<byte>, pos: nat, o: Opt, rest: seq<byte>)
    requires |o.value| <= 253 && pos <= |s| && s[pos..] == OptBytes(o) + rest
    ensures AtOption(s, pos) && s[pos] == o.kind && s[pos + 1] == 2 + |o.value|
    ensures s[pos + 2..pos + 2 + |o.value|] == o.value && s[pos + 2 + |o.value|..] == rest
  {
    var n := 2 + |o.value|;
    var t := OptBytes(o) + rest;
    assert |s| - pos == |t| && s[pos] == t[0] && s[pos + 1] == t[1];
    assert s[pos + 2..pos + n] == t[2..n] == o.value;
    assert s[pos + n..] == t[n..] == rest;
  }

  /** Round trip: the walk visits exactly the options written, in order. */
  lemma {:induction false} WalkWritten(s: seq<byte>, pos: nat, opts: seq<Opt>)
    requires forall o :: o in opts ==> |o.value| <= 253
    requires pos <= |s| && s[pos..] == OptsBytes(opts)
    ensures Walk(s, pos) == opts
    decreases opts
  {
    if opts != [] {
      hide AtOption;
      OptionWritten(s, pos, opts[0], OptsBytes(opts[1..]));
      WalkWritten(s, pos + 2 + |opts[0].value|, opts[1..]);
      assert opts == [opts[0]] + opts[1..];
    }
  }

  /** The last occurrence of `kind` with a four-octet value, or `default`. */
  function Last(opts: seq<Opt>, kind: byte, default: uint32): uint32 {
    if opts == [] then default
    else
      var o := opts[0];
      Last(opts[1..], kind, if o.kind == kind && |o.value| == 4 then GetBe32(o.value) else default)
  }

  lemma {:induction false} LastAppend(opts: seq<Opt>, more: seq<Opt>, kind: byte, default: uint32)
    ensures Last(opts + more, kind, default) == Last(more, kind, Last(opts, kind, default))
  {
    if opts == [] {
      assert opts + more == more;
    } else {
      var o := opts[0];
      assert (opts + more)[1..] == opts[1..] + more;
      LastAppend(opts[1..], more, kind, if o.kind == kind && |o.value| == 4 then GetBe32(o.value) else default);
    }
  }

  /** The last occurrence of a type wins. */
  lemma LastWins(before: seq<Opt>, kind: byte, v: uint32, behind: seq<Opt>, default: uint32)
    requires forall o :: o in behind ==> o.kind != kind || |o.value| != 4
    ensures Last(before + [Opt(kind, PutBe32(v))] + behind, kind, default) == v
  {
    Be32RoundTrip(v);
    LastAppend(before + [Opt(kind, PutBe32(v))], behind, kind, default);
    LastAppend(before, [Opt(kind, PutBe32(v))], kind, default);
    LastIdle(behind, kind, v);
  }

  lemma {:induction false} LastIdle(opts: seq<Opt>, kind: byte, default: uint32)
    requires forall o :: o in opts ==> o.kind != kind || |o.value| != 4
    ensures Last(opts, kind, default) == default
  {
    if opts != [] {
      LastIdle(opts[1..], kind, default);
    }
  }
}
