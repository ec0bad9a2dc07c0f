/** The compare log: per key a header and a ring of 32 operand pairs, filled by the instruction hooks.

    The key is a hash of the return address and a parameter here, and so is whether the log is mapped. */
module CmplogRing {
  import opened Wrappers

  const MAP_W: nat := 65536
  const MAP_H: nat := 32
  const WORD: nat := 0x1_0000_0000_0000_0000
  const HITS: nat := 0x100_0000        // the hit counter has 24 bits
  const SHAPE: nat := 32               // the shape 5
  const ATTRIBUTE: nat := 16           // the attribute 4

  type Byte = x: nat | x < 256
  type U16 = x: nat | x < 0x1_0000
  type U32 = x: nat | x < 0x1_0000_0000
  type U64 = x: nat | x < WORD
  type U128 = x: nat | x < WORD * WORD

  datatype Kind = Unset | Ins | Rtn
  datatype Header = Header(hits: nat, shape: nat, kind: Kind, attribute: nat)
  datatype Operands = Operands(v0: nat, v1: nat, v0High: nat, v1High: nat)

  /** One logged compare; size is its width in bytes minus one. */
  datatype Compare = Compare(a: U128, b: U128, attr: Byte, size: Byte)

  function Low(x: U128): nat { x % WORD }
  function High(x: U128): nat { x / WORD }

  // ----- what a ring should hold, given the compares logged since the key last changed its type -----

  /** The latest compare whose sequence number is j modulo 32, among those at least `least` wide. */
  ghost function Latest(log: seq<Compare>, j: nat, least: nat): Option<Compare> {
    if log == [] then None
    else
      var n := |log| - 1;
      if n % MAP_H == j && log[n].size >= least then Some(log[n]) else Latest(log[..n], j, least)
  }

  ghost function MaxSize(log: seq<Compare>): nat {
    if log == [] then 0 else Max(MaxSize(log[..|log| - 1]), log[|log| - 1].size)
  }

  function Max(x: nat, y: nat): nat { if x < y then y else x }

  ghost predicate SlotOk(s: Operands, log: seq<Compare>, j: nat) {
    && (Latest(log, j, 0).Some? ==> var c := Latest(log, j, 0).value; s.v0 == Low(c.a) && s.v1 == Low(c.b))
    && (Latest(log, j, 8).Some? ==> var c := Latest(log, j, 8).value; s.v0High == High(c.a) && s.v1High == High(c.b))
  }

  ghost predicate HeaderOk(h: Header, log: seq<Compare>) {
    && log != [] && h.hits == |log| % HITS
    && h.shape < SHAPE && (MaxSize(log) < SHAPE ==> h.shape == MaxSize(log))
    && h.attribute == log[|log| - 1].attr % ATTRIBUTE
  }

  lemma LatestNext(log: seq<Compare>, c: Compare, j: nat, least: nat)
    ensures Latest(log + [c], j, least) ==
            if |log| % MAP_H == j && c.size >= least then Some(c) else Latest(log, j, least)
  {
    assert (log + [c])[..|log|] == log;
  }

  lemma MaxSizeNext(log: seq<Compare>, c: Compare)
    ensures MaxSize(log + [c]) == Max(MaxSize(log), c.size)
  {
    assert (log + [c])[..|log|] == log;
  }

  /** The ring holds the last 32 compares, each in its own slot. */
  lemma {:induction false} HoldsLast32(log: seq<Compare>, i: nat)
    requires i < |log| <= i + 32
    ensures Latest(log, i % 32, 0) == Some(log[i])
  {
    var n := |log| - 1;
    if i < n {
      HoldsLast32(log[..n], i);
      Apart(i, n);
    }
  }

  lemma Apart(i: nat, n: nat)
    requires i < n < i + MAP_H
    ensures i % MAP_H != n % MAP_H
  {}

  /** The shape is the greatest width minus one exactly when that fits into its five bits. */
  lemma ShapeExact(h: Header, log: seq<Compare>)
    requires HeaderOk(h, log)
    ensures h.shape == MaxSize(log) <==> MaxSize(log) < 32
  {}

  /** The header's fields in numbers. */
  lemma HeaderInNumbers(h: Header, log: seq<Compare>)
    requires HeaderOk(h, log)
    ensures h.hits == |log| % 0x100_0000 && h.attribute == log[|log| - 1].attr % 16 && h.shape < 32
  {}

  /** Low and high word make up an operand. */
  lemma WordsOf(x: U128)
    ensures x == Low(x) + 0x1_0000_0000_0000_0000 * High(x) && Low(x) < 0x1_0000_0000_0000_0000
  {}

  /** The counter wraps at a multiple of 32, so the slot goes on in order. */
  lemma {:induction false} HitsNext(n: nat)
    ensures (n % 0x100_0000 + 1) % 0x100_0000 == (n + 1) % HITS
    ensures n % 0x100_0000 % 32 == n % MAP_H
  {
    if n >= HITS {
      HitsNext(n - HITS);
      Less(n);
    }
  }

  lemma Less(n: nat)
    requires n >= HITS
    ensures (n - HITS) % HITS == n % HITS
    ensures (n - HITS + 1) % HITS == (n + 1) % HITS
    ensures (n - HITS) % MAP_H == n % MAP_H
  {}

  /** The header after one more compare. */
  function NextHeader(h: Header, c: Compare): Header {
    if h.kind != Ins then Header(1, c.size % SHAPE, Ins, c.attr % ATTRIBUTE)
    else Header((h.hits + 1) % HITS, if h.shape < c.size then c.size % SHAPE else h.shape, Ins, c.attr % ATTRIBUTE)
  }

  function Slot(h: Header): nat { if h.kind != Ins then 0 else h.hits % MAP_H }

  /** The slot after one more compare is written to it. */
  function NextSlot(s: Operands, c: Compare): Operands {
    var s := s.(v0 := Low(c.a), v1 := Low(c.b));
    if c.size > 7 then s.(v0High := High(c.a), v1High := High(c.b)) else s
  }

  /** The log since the last type switch, after one more compare. */
  ghost function NextLog(h: Header, log: seq<Compare>, c: Compare): seq<Compare> {
    if h.kind == Ins then log + [c] else [c]
  }

  /** Wider compares do not fit: one of 33 bytes leaves the shape of a single byte. */
  lemma ShapeCut(h: Header, a: U128, b: U128, attr: Byte)
    requires h.kind != Ins
    ensures var c := Compare(a, b, attr, 32); MaxSize(NextLog(h, [], c)) == 32 && NextHeader(h, c).shape == 0
  {
    var c := Compare(a, b, attr, 32);
    MaxSizeNext([], c);
    assert [] + [c] == [c];
  }

  lemma HeaderNext(h: Header, log: seq<Compare>, c: Compare)
    requires h.kind == Ins ==> HeaderOk(h, log)
    ensures HeaderOk(NextHeader(h, c), NextLog(h, log, c))
  {
    if h.kind == Ins {
      HitsNext(|log|);
      MaxSizeNext(log, c);
    } else {
      MaxSizeNext([], c);
      assert [] + [c] == [c];
    }
  }

  lemma SlotNext(h: Header, s: Operands, log: seq<Compare>, c: Compare, j: nat)
    requires j < MAP_H && (h.kind == Ins ==> HeaderOk(h, log) && SlotOk(s, log, j))
    ensures SlotOk(if j == Slot(h) then NextSlot(s, c) else s, NextLog(h, log, c), j)
  {
    var was := if h.kind == Ins then log else [];
    HitsNext(|was|);
    assert was + [c] == NextLog(h, log, c);
    LatestNext(was, c, j, 0);
    LatestNext(was, c, j, 8);
  }

  // ----- the log -----

  class CmpMap {
    const mapped: bool
    const headers: array<Header>
    const log: array2<Operands>

    /** Per key: the compares logged since its type last changed. */
    ghost var since: seq<seq<Compare>>

    ghost predicate Valid()
      reads this, headers, log
    {
      && headers.Length == MAP_W && log.Length0 == MAP_W && log.Length1 == MAP_H && |since| == MAP_W
      && (forall k | 0 <= k < MAP_W && headers[k].kind == Ins :: HeaderOk(headers[k], since[k]))
      && (forall k, j | 0 <= k < MAP_W && 0 <= j < MAP_H && headers[k].kind == Ins :: SlotOk(log[k, j], since[k], j))
    }

    /** The compare was logged under k, or nothing happened. */
    twostate predicate Logged(taken: bool, k: nat, c: Compare)
      requires old(Valid()) && k < MAP_W && |since| == MAP_W
      reads this, headers, log
    {
      if taken then
        && headers[k].kind == Ins && since == old(since)[k := NextLog(old(headers[k]), old(since[k]), c)]
        && forall i | 0 <= i < MAP_W && i != k :: headers[i] == old(headers[i])
      else since == old(since) && unchanged(headers) && unchanged(log)
    }

    /** A zeroed log. */
    constructor (mapped: bool)
      ensures Valid() && fresh(headers) && fresh(log)
    {
      this.mapped := mapped;
      headers := new Header[MAP_W](i => Header(0, 0, Unset, 0));
      log := new Operands[MAP_W, MAP_H]((i, j) => Operands(0, 0, 0, 0));
      since := seq(MAP_W, i => []);
    }

    /** What all hooks do once they have decided to log. */
    method Record(k: nat, c: Compare)
      requires Valid() && k < MAP_W
      modifies `since, headers, log
      ensures Valid() && headers[k].kind == Ins
      ensures since == old(since)[k := NextLog(old(headers[k]), old(since[k]), c)]
      ensures forall i | 0 <= i < MAP_W && i != k :: headers[i] == old(headers[i])
    {
      ghost var h, was := headers[k], since[k];
      var hits := 0;
      if headers[k].kind != Ins {
        headers[k] := headers[k].(kind := Ins, hits := 1, shape := c.size % SHAPE);
      } else {
        hits := headers[k].hits;
        headers[k] := headers[k].(hits := (hits + 1) % HITS);
        if headers[k].shape < c.size {
          headers[k] := headers[k].(shape := c.size % SHAPE);
        }
      }
      headers[k] := headers[k].(attribute := c.attr % ATTRIBUTE);
      hits := hits % MAP_H;
      log[k, hits] := log[k, hits].(v0 := Low(c.a), v1 := Low(c.b));
      if c.size > 7 {
        log[k, hits] := log[k, hits].(v0High := High(c.a), v1High := High(c.b));
      }
      since := since[k := NextLog(h, was, c)];
      assert headers[k] == NextHeader(h, c) && hits == Slot(h);
      HeaderNext(h, was, c);
      forall j | 0 <= j < MAP_H
        ensures SlotOk(log[k, j], since[k], j)
      {
        SlotNext(h, old(log[k, j]), was, c, j);
      }
    }

    method Hook1(k: nat, arg1: Byte, arg2: Byte, attr: Byte)
      requires Valid() && k < MAP_W
      modifies `since, headers, log
      ensures Valid() && Logged(mapped && arg1 != arg2, k, Compare(arg1, arg2, attr, 0))
    {
      if !mapped || arg1 == arg2 { return; }
      Record(k, Compare(arg1, arg2, attr, 0));
    }

    method Hook2(k: nat, arg1: U16, arg2: U16, attr: Byte)
      requires Valid() && k < MAP_W
      modifies `since, headers, log
      ensures Valid() && Logged(mapped && arg1 != arg2, k, Compare(arg1, arg2, attr, 1))
    {
      if !mapped || arg1 == arg2 { return; }
      Record(k, Compare(arg1, arg2, attr, 1));
    }

    method Hook4(k: nat, arg1: U32, arg2: U32, attr: Byte)
      requires Valid() && k < MAP_W
      modifies `since, headers, log
      ensures Valid() && Logged(mapped && arg1 != arg2, k, Compare(arg1, arg2, attr, 3))
    {
      if !mapped || arg1 == arg2 { return; }
      Record(k, Compare(arg1, arg2, attr, 3));
    }

    method Hook8(k: nat, arg1: U64, arg2: U64, attr: Byte)
      requires Valid() && k < MAP_W
      modifies `since, headers, log
      ensures Valid() && Logged(mapped && arg1 != arg2, k, Compare(arg1, arg2, attr, 7))
    {
      if !mapped || arg1 == arg2 { return; }
      Record(k, Compare(arg1, arg2, attr, 7));
    }

    /** Odd widths; size is given. */
    method HookN(k: nat, arg1: U128, arg2: U128, attr: Byte, size: Byte)
      requires Valid() && k < MAP_W
      modifies `since, headers, log
      ensures Valid() && Logged(mapped && arg1 != arg2, k, Compare(arg1, arg2, attr, size))
    {
      if !mapped || arg1 == arg2 { return; }
      Record(k, Compare(arg1, arg2, attr, size));
    }

    /** The one hook that logs equal operands too. */
    method Hook16(k: nat, arg1: U128, arg2: U128, attr: Byte)
      requires Valid() && k < MAP_W
      modifies `since, headers, log
      ensures Valid() && Logged(mapped, k, Compare(arg1, arg2, attr, 15))
    {
      if !mapped { return; }
      Record(k, Compare(arg1, arg2, attr, 15));
    }

    /** The key is taken over by something else: a routine hook, or the fuzzer clearing the log. */
    method TakeOver(k: nat, h: Header, row: seq<Operands>)
      requires Valid() && k < MAP_W && h.kind != Ins && |row| == MAP_H
      modifies headers, log
      ensures Valid() && headers[k] == h && since == old(since)
      ensures forall i | 0 <= i < MAP_W && i != k :: headers[i] == old(headers[i])
    {
      headers[k] := h;
      for j := 0 to MAP_H
        invariant headers[k] == h && forall i | 0 <= i < MAP_W && i != k :: headers[i] == old(headers[i])
        invariant forall i, m | 0 <= i < MAP_W && i != k && 0 <= m < MAP_H :: log[i, m] == old(log[i, m])
      {
        log[k, j] := row[j];
      }
    }

    /** Each of the last 32 compares since the type switch is in the slot its sequence number names. */
    lemma RingHoldsLast32(k: nat, i: nat)
      requires Valid() && k < 65536 && headers[k].kind == Ins && i < |since[k]| <= i + 32
      ensures log[k, i % 32].v0 == since[k][i].a % 0x1_0000_0000_0000_0000
      ensures log[k, i % 32].v1 == since[k][i].b % 0x1_0000_0000_0000_0000
    {
      HoldsLast32(since[k], i);
      assert SlotOk(log[k, i % MAP_H], since[k], i % MAP_H);
    }
  }
}
