/** The messages between the client and the pppd plug-in (sstp-api.c): aligned attributes appended in
    place, and a parser that leaves a pointer to the last attribute of each type. */
module Api {
  import opened Bytes

  const SSTP_API_ATTR_MAX: nat := 4
  const HEAD: nat := 4                   // sizeof(sstp_api_attr_st)
  const NULL: int := -1

  datatype Attribute = Attribute(kind: uint16, value: seq<byte>)

  // ALIGN32: the next multiple of four.
  function Align32(n: nat): (r: nat)
    ensures n <= r < n + 4 && r % 4 == 0
  {
    (n + 3) / 4 * 4
  }

  function PutLe16(v: uint16): seq<byte> {
    [v % 0x100, v / 0x100]
  }

  function GetLe16(p: seq<byte>): uint16
    requires |p| >= 2
  {
    var lo: int, hi: int := p[0], p[1];
    hi * 0x100 + lo
  }

  /** The attribute `a` lies at `pos`. */
  ghost predicate LiesAt(s: seq<byte>, pos: nat, a: Attribute) {
    pos + HEAD + Align32(|a.value|) <= |s| && |a.value| < 0x1_0000 &&
    s[pos..pos + HEAD] == PutLe16(a.kind) + PutLe16(|a.value|) &&
    s[pos + HEAD..pos + HEAD + |a.value|] == a.value
  }

  /** From `pos` to its end `s` consists of `attrs`, whatever octets pad them. */
  ghost predicate Laid(s: seq<byte>, pos: nat, attrs: seq<Attribute>)
    decreases attrs
  {
    if attrs == [] then pos == |s|
    else LiesAt(s, pos, attrs[0]) && Laid(s, pos + HEAD + Align32(|attrs[0].value|), attrs[1..])
  }

  lemma LiesAtLonger(s: seq<byte>, t: seq<byte>, pos: nat, a: Attribute)
    requires LiesAt(s, pos, a) && s <= t
    ensures LiesAt(t, pos, a)
  {
    assert t[pos..pos + HEAD] == s[pos..pos + HEAD];
    assert t[pos + HEAD..pos + HEAD + |a.value|] == s[pos + HEAD..pos + HEAD + |a.value|];
  }

  lemma {:induction false} LaidSnoc(s: seq<byte>, pos: nat, attrs: seq<Attribute>, t: seq<byte>, a: Attribute)
    requires Laid(s, pos, attrs) && s <= t && LiesAt(t, |s|, a) && |t| == |s| + HEAD + Align32(|a.value|)
    ensures Laid(t, pos, attrs + [a])
    decreases attrs
  {
    hide LiesAt;
    if attrs == [] {
      assert [a][1..] == [];
    } else {
      assert (attrs + [a])[1..] == attrs[1..] + [a];
      LiesAtLonger(s, t, pos, attrs[0]);
      LaidSnoc(s, pos + HEAD + Align32(|attrs[0].value|), attrs[1..], t, a);
    }
  }

  lemma Le16Size(v: uint16)
    ensures |PutLe16(v)| == 2
  {
  }

  lemma WrittenLies(before: seq<byte>, a: Attribute, padding: seq<byte>)
    requires |a.value| < 0x1_0000 && |a.value| + |padding| == Align32(|a.value|)
    ensures LiesAt(before + PutLe16(a.kind) + PutLe16(|a.value|) + a.value + padding, |before|, a)
  {
    hide PutLe16;
    Le16Size(a.kind);
    Le16Size(|a.value|);
  }

  class Message {
    const data: array<byte>              // msg_data
    var len: uint16                      // msg_len

    // sstp_api_msg_new
    constructor (data: array<byte>)
      ensures this.data == data && len == 0 && Laid(data[..0], 0, [])
    {
      this.data, len := data, 0;
    }

    /** sstp_api_attr_add: the length is cut to 16 bits, and only so many octets are copied; so is the new
        length of the message. `attrs` is what the message holds. */
    method AttrAdd(kind: uint16, value: seq<byte>, ghost attrs: seq<Attribute>)
      requires len + HEAD + Align32(|value| % 0x1_0000) <= data.Length && Laid(data[..len], 0, attrs)
      modifies this, data
      ensures var copied := value[..|value| % 0x1_0000];
        var total := old(len) + HEAD + Align32(|copied|);
        && len == total % 0x1_0000
        && Laid(data[..total], 0, attrs + [Attribute(kind, copied)])
        && data[total..] == old(data[..])[total..]
    {
      hide LiesAt, PutLe16, Laid;
      Le16Size(kind);
      Le16Size(|value| % 0x1_0000);
      ghost var before := data[..len];
      var n := |value| % 0x1_0000;
      var total := len + HEAD + Align32(n);
      var field, size := PutLe16(kind), PutLe16(n);
      data[len], data[len + 1] := field[0], field[1];
      data[len + 2], data[len + 3] := size[0], size[1];
      forall i | 0 <= i < n {
        data[len + HEAD + i] := value[i];
      }
      ghost var a := Attribute(kind, value[..n]);
      assert data[..total] == before + field + size + value[..n] + data[len + HEAD + n..total];
      WrittenLies(before, a, data[len + HEAD + n..total]);
      LaidSnoc(before, 0, attrs, data[..total], a);
      len := total % 0x1_0000;
    }
  }

  // ----- parsing -----

  datatype Visit = Visit(kind: nat, at: nat)

  /** What the walk sees from `pos` on, and where it ends; or a type that is not known. */
  datatype Walked = Unknown | Walked(visits: seq<Visit>, end: nat)

  function Walk(s: seq<byte>, pos: nat, length: nat): Walked
    requires Align32(length) <= |s| && pos % 4 == 0
    decreases length - pos
  {
    if pos >= length then Walked([], pos)
    else
      var kind := GetLe16(s[pos..pos + 2]);
      if kind > SSTP_API_ATTR_MAX || kind == 0 then Unknown
      else
        match Walk(s, pos + HEAD + Align32(GetLe16(s[pos + 2..pos + 4])), length)
        case Unknown => Unknown
        case Walked(visits, end) => Walked([Visit(kind, pos)] + visits, end)
  }

  /** The last of `visits` to `kind`, or else what was there. */
  function Latest(visits: seq<Visit>, kind: nat, otherwise: int): int {
    if visits == [] then otherwise
    else Latest(visits[1..], kind, if visits[0].kind == kind then visits[0].at else otherwise)
  }

  function Prefixed(visits: seq<Visit>, w: Walked): Walked {
    match w
    case Unknown => Unknown
    case Walked(more, end) => Walked(visits + more, end)
  }

  lemma WalkStep(s: seq<byte>, pos: nat, length: nat, visits: seq<Visit>)
    requires Align32(length) <= |s| && pos % 4 == 0 && pos < length
    ensures pos + 4 <= |s|
    ensures var kind := GetLe16(s[pos..pos + 2]);
      var next := pos + HEAD + Align32(GetLe16(s[pos + 2..pos + 4]));
      Prefixed(visits, Walk(s, pos, length)) ==
        if kind > SSTP_API_ATTR_MAX || kind == 0 then Unknown else Prefixed(visits + [Visit(kind, pos)], Walk(s, next, length))
  {
    hide GetLe16;
    var next := pos + HEAD + Align32(GetLe16(s[pos + 2..pos + 4]));
    match Walk(s, next, length)
    case Unknown =>
    case Walked(more, end) =>
      var kind := GetLe16(s[pos..pos + 2]);
      assert visits + ([Visit(kind, pos)] + more) == visits + [Visit(kind, pos)] + more;
  }

  lemma {:induction false} LatestSnoc(visits: seq<Visit>, v: Visit, kind: nat, otherwise: int)
    ensures Latest(visits + [v], kind, otherwise) == if v.kind == kind then v.at else Latest(visits, kind, otherwise)
  {
    if visits == [] {
      assert (visits + [v])[1..] == [];
    } else {
      assert (visits + [v])[1..] == visits[1..] + [v];
      LatestSnoc(visits[1..], v, kind, if visits[0].kind == kind then visits[0].at else otherwise);
    }
  }

  /** sstp_api_attr_parse: fails exactly on an unknown type; otherwise each of the `count` slots is the
      last attribute of its type or NULL. Slots behind them change only if an attribute has their type. */
  method AttrParse(buf: array<byte>, length: nat, list: array<int>, count: nat) returns (ret: int)
    requires Align32(length) <= buf.Length && SSTP_API_ATTR_MAX < list.Length && count <= list.Length
    modifies list
    ensures ret == if Walk(buf[..], 0, length).Unknown? then -1 else 0
    ensures ret == 0 ==> forall t :: 0 <= t < list.Length ==>
      list[t] == Latest(Walk(buf[..], 0, length).visits, t, if t < count then NULL else old(list[t]))
  {
    hide Walk, GetLe16, Latest;
    forall t | 0 <= t < count {
      list[t] := NULL;
    }
    ghost var visits: seq<Visit> := [];
    ghost var start := list[..];
    WalkNone(buf[..], length, start);
    var index := 0;
    while index < length
      invariant index % 4 == 0
      invariant Prefixed(visits, Walk(buf[..], index, length)) == Walk(buf[..], 0, length)
      invariant forall t :: 0 <= t < list.Length ==> list[t] == Latest(visits, t, start[t])
      decreases length - index
    {
      WalkStep(buf[..], index, length, visits);
      var kind := GetLe16(buf[index..index + 2]);
      assert buf[index..index + 2] == buf[..][index..index + 2] && buf[index + 2..index + 4] == buf[..][index + 2..index + 4];
      if kind > SSTP_API_ATTR_MAX || kind <= 0 {
        return -1;
      }
      forall t | 0 <= t < list.Length
        ensures Latest(visits + [Visit(kind, index)], t, start[t]) == if kind == t then index else Latest(visits, t, start[t])
      {
        LatestSnoc(visits, Visit(kind, index), t, start[t]);
      }
      ghost var was := list[..];
      list[kind] := index;
      assert forall t :: 0 <= t < list.Length ==> list[t] == if t == kind then index else was[t];
      visits := visits + [Visit(kind, index)];
      index := index + HEAD + Align32(GetLe16(buf[index + 2..index + 4]));
    }
    WalkEnd(buf[..], index, length, visits);
    return 0;
  }

  lemma WalkNone(s: seq<byte>, length: nat, list: seq<int>)
    requires Align32(length) <= |s|
    ensures Prefixed([], Walk(s, 0, length)) == Walk(s, 0, length)
    ensures forall kind: nat, otherwise :: Latest([], kind, otherwise) == otherwise
  {
    match Walk(s, 0, length)
    case Unknown =>
    case Walked(visits, end) => assert [] + visits == visits;
  }

  lemma WalkEnd(s: seq<byte>, pos: nat, length: nat, visits: seq<Visit>)
    requires Align32(length) <= |s| && pos % 4 == 0 && pos >= length
    ensures Prefixed(visits, Walk(s, pos, length)) == Walked(visits, pos)
  {
    assert visits + [] == visits;
  }

  // ----- round trip -----

  ghost predicate Known(attrs: seq<Attribute>) {
    forall a :: a in attrs ==> 0 < a.kind <= SSTP_API_ATTR_MAX
  }

  // The last attribute of a type, or -1.
  function LastOf(attrs: seq<Attribute>, kind: nat): (i: int)
    ensures -1 <= i < |attrs| && (i >= 0 ==> attrs[i].kind == kind)
    ensures forall j :: i < j < |attrs| ==> attrs[j].kind != kind
  {
    if attrs == [] then -1
    else if attrs[|attrs| - 1].kind == kind then |attrs| - 1
    else LastOf(attrs[..|attrs| - 1], kind)
  }

  lemma LaidFields(s: seq<byte>, pos: nat, a: Attribute)
    requires LiesAt(s, pos, a)
    ensures GetLe16(s[pos..pos + 2]) == a.kind && GetLe16(s[pos + 2..pos + 4]) == |a.value|
  {
    var head := s[pos..pos + HEAD];
    assert s[pos..pos + 2] == head[..2] && s[pos + 2..pos + 4] == head[2..];
  }

  /** Attributes of known types are visited one by one, where they lie, and the walk ends exactly at the
      end of the message. */
  lemma {:induction false} WalkLaid(s: seq<byte>, pos: nat, attrs: seq<Attribute>)
    requires Laid(s, pos, attrs) && Known(attrs) && pos % 4 == 0 && |s| % 4 == 0
    ensures var w := Walk(s, pos, |s|);
      w.Walked? && w.end == |s| && |w.visits| == |attrs| &&
      forall i :: 0 <= i < |attrs| ==> w.visits[i].kind == attrs[i].kind && LiesAt(s, w.visits[i].at, attrs[i])
    decreases attrs
  {
    hide LiesAt, GetLe16;
    if attrs != [] {
      var next := pos + HEAD + Align32(|attrs[0].value|);
      assert attrs[0] in attrs;
      LaidFields(s, pos, attrs[0]);
      LaidInside(s, pos, attrs);
      WalkLaid(s, next, attrs[1..]);
      WalkStep(s, pos, |s|, []);
      WalkNone(s, |s|, []);
    }
  }

  lemma LaidInside(s: seq<byte>, pos: nat, attrs: seq<Attribute>)
    requires Laid(s, pos, attrs) && attrs != []
    ensures pos < |s|
  {
  }

  lemma {:induction false} LatestIs(visits: seq<Visit>, attrs: seq<Attribute>, kind: nat, otherwise: int)
    requires |visits| == |attrs| && forall i :: 0 <= i < |attrs| ==> visits[i].kind == attrs[i].kind
    ensures Latest(visits, kind, otherwise) == (var i := LastOf(attrs, kind); if i < 0 then otherwise else visits[i].at)
  {
    if visits != [] {
      var n := |visits| - 1;
      assert visits == visits[..n] + [visits[n]];
      LatestSnoc(visits[..n], visits[n], kind, otherwise);
      LatestIs(visits[..n], attrs[..n], kind, otherwise);
    }
  }

  /** Round trip: in a message of known attributes each slot leads to the last attribute of its type,
      with its data, and is NULL if and only if there is none. */
  lemma ParseLaid(s: seq<byte>, attrs: seq<Attribute>, t: nat)
    requires Laid(s, 0, attrs) && Known(attrs) && |s| % 4 == 0
    ensures var w := Walk(s, 0, |s|);
      var last := LastOf(attrs, t);
      && w.Walked? && w.end == |s|
      && var slot := Latest(w.visits, t, NULL);
      (slot == NULL <==> last < 0) && (last >= 0 ==> slot >= 0 && LiesAt(s, slot, attrs[last]))
  {
    hide Laid, LiesAt, Walk, Latest, Known;
    WalkLaid(s, 0, attrs);
    LatestIs(Walk(s, 0, |s|).visits, attrs, t, NULL);
  }
}
