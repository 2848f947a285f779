/** Sequences: traversing the elements of one, and algorithm identifiers. */
module DerSequence {
  import opened Blocks
  import opened Der
  import opened DerParse
  import opened DerWrite

  /** An element found in memory: its tag and where its content lies. */
  datatype Buf = Buf(tag: bv8, start: nat, len: nat)

  /** Which tags an element must have to be accepted, and may have to be reported. */
  datatype Masks = Masks(must: bv8, mustVal: bv8, may: bv8, mayVal: bv8)

  predicate Accepts(m: Masks, tag: bv8) {
    tag & m.must == m.mustVal
  }

  predicate Shows(m: Masks, tag: bv8) {
    tag & m.may == m.mayVal
  }

  /** What the callback answers for an element, having been given others before. */
  type Callback = (seq<Buf>, Buf) -> int

  // --------------------------------------------------------------- traversal

  datatype Walked = Walked(ret: int, cursor: nat, seen: seq<Buf>)

  /** The traversal of the elements between p and end. */
  function Walk(mem: Bytes, p: nat, end: nat, m: Masks, cb: Callback, seen: seq<Buf>): Walked
    requires p <= end <= |mem|
    decreases end - p
  {
    if p == end then Walked(0, p, seen)
    else if !Accepts(m, mem[p]) then Walked(UNEXPECTED_TAG, p + 1, seen)
    else
      match LenAt(mem[p + 1..end])
      case Bad(ret, cursor) => Walked(ret, p + 1 + cursor, seen)
      case Got(content, len) =>
        var b := Buf(mem[p], p + 1 + content, len);
        if !Shows(m, mem[p]) then Walk(mem, b.start + len, end, m, cb, seen)
        else if cb(seen, b) != 0 then Walked(cb(seen, b), b.start, seen + [b])
        else Walk(mem, b.start + len, end, m, cb, seen + [b])
  }

  /** The traversal of a sequence that has to reach exactly to end. */
  function Traversal(mem: Bytes, p: nat, end: nat, m: Masks, cb: Callback): Walked
    requires p <= end <= |mem|
  {
    match ElementAt(mem[p..end], SEQUENCE)
    case Bad(ret, cursor) => Walked(ret, p + cursor, [])
    case Got(content, len) =>
      if p + content + len != end then Walked(LENGTH_MISMATCH, p + content, [])
      else Walk(mem, p + content, end, m, cb, [])
  }

  method TraverseSequenceOf(mem: Bytes, p: nat, end: nat, m: Masks, cb: Callback)
    returns (ret: int, q: nat, seen: seq<Buf>)
    requires p <= end <= |mem|
    ensures Walked(ret, q, seen) == Traversal(mem, p, end, m, cb)
  {
    hide ElementAt, LenAt, Walk;
    var len;
    seen := [];
    ret, q, len := GetTag(mem, p, end, SEQUENCE);
    if ret != 0 { return; }
    if q + len != end { ret := LENGTH_MISMATCH; return; }
    ret, q, seen := TraverseElements(mem, q, end, m, cb);
  }

  method TraverseElements(mem: Bytes, p: nat, end: nat, m: Masks, cb: Callback)
    returns (ret: int, q: nat, seen: seq<Buf>)
    requires p <= end <= |mem|
    ensures Walked(ret, q, seen) == Walk(mem, p, end, m, cb, [])
  {
    hide LenAt, Accepts, Shows, Walk;
    q, seen := p, [];
    while q < end
      invariant p <= q <= end
      invariant Walk(mem, q, end, m, cb, seen) == Walk(mem, p, end, m, cb, [])
      decreases end - q
    {
      WalkStep(mem, q, end, m, cb, seen);
      var tag := mem[q];
      q := q + 1;
      if !Accepts(m, tag) { ret := UNEXPECTED_TAG; return; }
      var len;
      ret, q, len := GetLen(mem, q, end);
      if ret != 0 { return; }
      if Shows(m, tag) {
        var b := Buf(tag, q, len);
        ret := cb(seen, b);
        seen := seen + [b];
        if ret != 0 { return; }
      }
      q := q + len;
    }
    WalkEnd(mem, end, m, cb, seen);
    ret := 0;
  }

  lemma WalkEnd(mem: Bytes, end: nat, m: Masks, cb: Callback, seen: seq<Buf>)
    requires end <= |mem|
    ensures Walk(mem, end, end, m, cb, seen) == Walked(0, end, seen)
  {
  }

  /** The element at p. */
  function At(mem: Bytes, p: nat, end: nat): Found
    requires p < end <= |mem|
  {
    LenAt(mem[p + 1..end])
  }

  lemma WalkStep(mem: Bytes, p: nat, end: nat, m: Masks, cb: Callback, seen: seq<Buf>)
    requires p < end <= |mem|
    ensures var w, f := Walk(mem, p, end, m, cb, seen), At(mem, p, end);
      if !Accepts(m, mem[p]) then w == Walked(UNEXPECTED_TAG, p + 1, seen)
      else if f.Bad? then w == Walked(f.ret, p + 1 + f.cursor, seen)
      else
        var b := Buf(mem[p], p + 1 + f.content, f.len);
        && b.start + b.len <= end
        && if !Shows(m, mem[p]) then w == Walk(mem, b.start + b.len, end, m, cb, seen)
           else if cb(seen, b) != 0 then w == Walked(cb(seen, b), b.start, seen + [b])
           else w == Walk(mem, b.start + b.len, end, m, cb, seen + [b])
  {
    hide LenAt, Accepts, Shows;
  }

  /** An element to be written. */
  datatype Item = Item(tag: bv8, content: Bytes)

  predicate Sized(items: seq<Item>) {
    forall i :: 0 <= i < |items| ==> |items[i].content| <= MAX_LEN
  }

  function Items(items: seq<Item>): Bytes
    requires Sized(items)
  {
    if items == [] then [] else Tlv(items[0].tag, items[0].content) + Items(items[1..])
  }

  /** Where the content lies of an element that starts at p. */
  function Place(tag: bv8, content: Bytes, p: nat): Buf
    requires |content| <= MAX_LEN
  {
    Buf(tag, p + |Tlv(tag, content)| - |content|, |content|)
  }

  /** Where the contents of the items lie when their encodings start at p. */
  function Places(items: seq<Item>, p: nat): (r: seq<Buf>)
    requires Sized(items)
    ensures |r| == |items|
  {
    if items == [] then []
    else
      [Place(items[0].tag, items[0].content, p)] + Places(items[1..], p + |Tlv(items[0].tag, items[0].content)|)
  }

  /** Each place holds its item. */
  lemma {:induction false} PlacesHold(mem: Bytes, items: seq<Item>, p: nat, i: nat)
    requires Sized(items) && i < |items|
    requires p + |Items(items)| <= |mem| && mem[p..p + |Items(items)|] == Items(items)
    ensures var b := Places(items, p)[i];
      b.start + b.len <= |mem| && b.tag == items[i].tag && mem[b.start..b.start + b.len] == items[i].content
  {
    hide Tlv, Place;
    var t, rest := Tlv(items[0].tag, items[0].content), Items(items[1..]);
    var later, here := Places(items[1..], p + |t|), Place(items[0].tag, items[0].content, p);
    assert Items(items) == t + rest && Places(items, p) == [here] + later;
    hide Items, Places;
    SplitAt(mem, p, p + |t| + |rest|, t, rest);
    if i == 0 {
      PlaceHolds(mem, items[0].tag, items[0].content, p);
    } else {
      PlacesHold(mem, items[1..], p + |t|, i - 1);
      assert Places(items, p)[i] == later[i - 1];
    }
  }

  lemma PlaceHolds(mem: Bytes, tag: bv8, content: Bytes, p: nat)
    requires |content| <= MAX_LEN && p + |Tlv(tag, content)| <= |mem|
    requires mem[p..p + |Tlv(tag, content)|] == Tlv(tag, content)
    ensures var b := Place(tag, content, p);
      b.start + b.len <= |mem| && b.tag == tag && mem[b.start..b.start + b.len] == content
  {
    hide Tlv, DerLen;
    var t := Tlv(tag, content);
    TlvEnds(tag, content);
    SplitAt(mem, p, p + |t|, t[..|t| - |content|], content);
  }

  lemma TlvFront(tag: bv8, content: Bytes)
    requires |content| <= MAX_LEN
    ensures Tlv(tag, content) == [tag] + (DerLen(|content|) + content)
  {
    hide DerLen;
  }

  lemma TlvEnds(tag: bv8, content: Bytes)
    requires |content| <= MAX_LEN
    ensures var t := Tlv(tag, content); |t| >= |content| && t == t[..|t| - |content|] + content
  {
    hide DerLen;
    assert Tlv(tag, content)[..1 + |DerLen(|content|)|] == [tag] + DerLen(|content|);
  }

  /** What a traversal of written items comes to: they are taken in order until one is refused. */
  function Taken(items: seq<Item>, p: nat, m: Masks, cb: Callback, seen: seq<Buf>): (int, seq<Buf>)
    requires Sized(items)
  {
    if items == [] then (0, seen)
    else if !Accepts(m, items[0].tag) then (UNEXPECTED_TAG, seen)
    else
      var b := Places(items, p)[0];
      var next := p + |Tlv(items[0].tag, items[0].content)|;
      if !Shows(m, items[0].tag) then Taken(items[1..], next, m, cb, seen)
      else if cb(seen, b) != 0 then (cb(seen, b), seen + [b])
      else Taken(items[1..], next, m, cb, seen + [b])
  }

  /** The element at the front of written items. */
  lemma FrontItem(mem: Bytes, items: seq<Item>, p: nat, end: nat)
    requires Sized(items) && items != [] && p <= end <= |mem| && mem[p..end] == Items(items)
    ensures var t := Tlv(items[0].tag, items[0].content);
      && p + |t| <= end && mem[p + |t|..end] == Items(items[1..]) && p < end && mem[p] == items[0].tag
      && At(mem, p, end) == Got(|t| - 1 - |items[0].content|, |items[0].content|)
  {
    hide DerLen, LenAt;
    var t, rest := Tlv(items[0].tag, items[0].content), Items(items[1..]);
    var len := |items[0].content|;
    assert Items(items) == t + rest;
    hide Items;
    SplitAt(mem, p, end, t, rest);
    assert t + rest == [items[0].tag] + (DerLen(len) + (items[0].content + rest));
    SplitAt(mem, p, end, [items[0].tag], DerLen(len) + (items[0].content + rest));
    hide Tlv;
    LenRead(len, items[0].content + rest);
  }

  /** Two parts of a stretch of memory. */
  lemma SplitAt(mem: Bytes, p: nat, end: nat, a: Bytes, b: Bytes)
    requires p <= end <= |mem| && mem[p..end] == a + b
    ensures p + |a| <= end && mem[p..p + |a|] == a && mem[p + |a|..end] == b
    ensures forall i :: 0 <= i < |a| ==> mem[p + i] == a[i]
  {
    var s := mem[p..end];
    assert mem[p..p + |a|] == s[..|a|] && mem[p + |a|..end] == s[|a|..];
    forall i | 0 <= i < |a| ensures mem[p + i] == a[i] {
      assert mem[p + i] == s[i];
    }
  }

  /** The traversal of written items sees the items, and takes the bytes of each for that item. */
  lemma {:induction false} WalkItems(mem: Bytes, items: seq<Item>, p: nat, end: nat, m: Masks, cb: Callback, seen: seq<Buf>)
    requires Sized(items) && p <= end <= |mem| && mem[p..end] == Items(items)
    ensures var w := Walk(mem, p, end, m, cb, seen);
      (w.ret, w.seen) == Taken(items, p, m, cb, seen) && (w.ret == 0 ==> w.cursor == end)
  {
    hide LenAt, Tlv, Accepts, Shows, Walk, At;
    if items == [] {
      WalkEnd(mem, end, m, cb, seen);
    } else {
      FrontItem(mem, items, p, end);
      WalkStep(mem, p, end, m, cb, seen);
      hide Items;
      var next := p + |Tlv(items[0].tag, items[0].content)|;
      var b := Places(items, p)[0];
      if Accepts(m, items[0].tag) {
        if !Shows(m, items[0].tag) {
          WalkItems(mem, items[1..], next, end, m, cb, seen);
        } else if cb(seen, b) == 0 {
          WalkItems(mem, items[1..], next, end, m, cb, seen + [b]);
        }
      }
    }
  }

  /** Items that all have an accepted tag are reported once each and in order. */
  lemma {:induction false} AllTaken(items: seq<Item>, p: nat, m: Masks, cb: Callback, seen: seq<Buf>)
    requires Sized(items) && (forall i :: 0 <= i < |items| ==> Accepts(m, items[i].tag))
    requires forall i :: 0 <= i < |items| ==> Shows(m, items[i].tag)
    requires forall s: seq<Buf>, b: Buf :: cb(s, b) == 0
    ensures Taken(items, p, m, cb, seen) == (0, seen + Places(items, p))
  {
    hide Tlv, Accepts, Shows, Place;
    if items == [] {
      assert seen + Places(items, p) == seen;
    } else {
      var b := Places(items, p)[0];
      var next := p + |Tlv(items[0].tag, items[0].content)|;
      var s := seen + [b];
      AllTaken(items[1..], next, m, cb, s);
      assert Places(items, p) == [b] + Places(items[1..], next);
      assert s + Places(items[1..], next) == seen + Places(items, p);
      assert cb(seen, b) == 0;
    }
  }

  /** The elements fill the bytes from p to end, one behind the other. */
  ghost predicate Tiled(mem: Bytes, p: nat, end: nat, bufs: seq<Buf>)
    requires p <= end <= |mem|
    decreases |bufs|
  {
    if bufs == [] then p == end
    else
      && ElementAt(mem[p..end], bufs[0].tag).Got?
      && bufs[0].start == p + ElementAt(mem[p..end], bufs[0].tag).content
      && bufs[0].len == ElementAt(mem[p..end], bufs[0].tag).len
      && Tiled(mem, bufs[0].start + bufs[0].len, end, bufs[1..])
  }

  /** A traversal that succeeds and reports everything has accounted for every byte, on any input. */
  lemma {:induction false} SuccessTiles(mem: Bytes, p: nat, end: nat, m: Masks, cb: Callback, seen: seq<Buf>)
      returns (bufs: seq<Buf>)
    requires p <= end <= |mem| && m.may == 0 && m.mayVal == 0
    requires Walk(mem, p, end, m, cb, seen).ret == 0
    ensures Walk(mem, p, end, m, cb, seen).seen == seen + bufs && Tiled(mem, p, end, bufs)
    ensures forall i :: 0 <= i < |bufs| ==> Accepts(m, bufs[i].tag)
    decreases end - p
  {
    hide LenAt, ElementAt, At, Accepts, Shows, Walk;
    if p == end {
      bufs := [];
      WalkEnd(mem, end, m, cb, seen);
      assert seen + bufs == seen;
    } else {
      WalkStep(mem, p, end, m, cb, seen);
      ElementOf(mem, p, end);
      var f := At(mem, p, end);
      var b := Buf(mem[p], p + 1 + f.content, f.len);
      AllMasked(m, mem[p]);
      var more := SuccessTiles(mem, b.start + b.len, end, m, cb, seen + [b]);
      bufs := [b] + more;
      assert bufs[1..] == more;
      assert seen + bufs == seen + [b] + more;
    }
  }

  lemma AllMasked(m: Masks, tag: bv8)
    requires m.may == 0 && m.mayVal == 0
    ensures Shows(m, tag)
  {
  }

  lemma ElementOf(mem: Bytes, p: nat, end: nat)
    requires p < end <= |mem|
    ensures ElementAt(mem[p..end], mem[p]) == Shift(At(mem, p, end), 1)
  {
    hide LenAt;
    assert mem[p..end][1..] == mem[p + 1..end];
  }

  /** A written list: every item is reported once, in order, where its content lies, and nothing is left. */
  lemma ListVisited(mem: Bytes, p: nat, end: nat, items: seq<Item>, m: Masks, cb: Callback)
    requires Sized(items) && |Items(items)| <= MAX_LEN
    requires p <= end <= |mem| && mem[p..end] == Tlv(SEQUENCE, Items(items))
    ensures var first := end - |Items(items)|;
      && first >= 0
      && (Traversal(mem, p, end, m, cb).ret, Traversal(mem, p, end, m, cb).seen) == Taken(items, first, m, cb, [])
      && (Traversal(mem, p, end, m, cb).ret == 0 ==> Traversal(mem, p, end, m, cb).cursor == end)
  {
    hide ElementAt, Walk, Taken, DerLen, Items;
    var all, c := Tlv(SEQUENCE, Items(items)), Items(items);
    ElementRead(SEQUENCE, c, []);
    assert all + [] == all;
    TlvEnds(SEQUENCE, c);
    SplitAt(mem, p, end, all[..|all| - |c|], c);
    WalkItems(mem, items, end - |c|, end, m, cb, []);
  }

  /** A written list of one kind of element comes back whole. */
  lemma WholeListVisited(mem: Bytes, p: nat, end: nat, items: seq<Item>, tag: bv8)
    requires Sized(items) && |Items(items)| <= MAX_LEN && forall i :: 0 <= i < |items| ==> items[i].tag == tag
    requires p <= end <= |mem| && mem[p..end] == Tlv(SEQUENCE, Items(items))
    ensures end - |Items(items)| >= 0
    ensures Traversal(mem, p, end, Only(tag), Always) == Walked(0, end, Places(items, end - |Items(items)|))
  {
    hide Traversal, Items, Tlv, Taken, Places;
    OnlyAccepts(tag);
    ListVisited(mem, p, end, items, Only(tag), Always);
    AllTaken(items, end - |Items(items)|, Only(tag), Always, []);
    assert [] + Places(items, end - |Items(items)|) == Places(items, end - |Items(items)|);
  }

  /** The masks of a list of elements with one tag, and a callback that only takes note. */
  function Only(tag: bv8): Masks {
    Masks(0xFF, tag, 0, 0)
  }

  function Always(seen: seq<Buf>, b: Buf): int {
    0
  }

  lemma OnlyAccepts(tag: bv8)
    ensures forall t: bv8 :: Accepts(Only(tag), t) <==> t == tag
    ensures forall t: bv8 :: Shows(Only(tag), t)
  {
    forall t: bv8 ensures Accepts(Only(tag), t) <==> t == tag {
      FullMask(t);
    }
    forall t: bv8 ensures Shows(Only(tag), t) {
      AllMasked(Only(tag), t);
    }
  }

  lemma FullMask(t: bv8)
    ensures t & 0xFF == t
  {
  }

  /** Elements that fill the bytes and are all accepted are what the traversal reports. */
  lemma {:induction false} TiledWalks(mem: Bytes, p: nat, end: nat, tag: bv8, bufs: seq<Buf>, seen: seq<Buf>)
    requires p <= end <= |mem| && Tiled(mem, p, end, bufs)
    requires forall i :: 0 <= i < |bufs| ==> bufs[i].tag == tag
    ensures Walk(mem, p, end, Only(tag), Always, seen) == Walked(0, end, seen + bufs)
    decreases |bufs|
  {
    hide ElementAt, LenAt, Walk, At, Accepts, Shows, Only;
    if bufs == [] {
      WalkEnd(mem, end, Only(tag), Always, seen);
      assert seen + bufs == seen;
    } else {
      NonEmptyElement(mem[p..end], bufs[0].tag);
      OnlyAccepts(tag);
      ElementOf(mem, p, end);
      WalkStep(mem, p, end, Only(tag), Always, seen);
      assert bufs[0] == Buf(mem[p], p + 1 + At(mem, p, end).content, At(mem, p, end).len);
      TiledWalks(mem, bufs[0].start + bufs[0].len, end, tag, bufs[1..], seen + [bufs[0]]);
      assert seen + [bufs[0]] + bufs[1..] == seen + bufs;
    }
  }

  lemma NonEmptyElement(s: Bytes, tag: bv8)
    requires ElementAt(s, tag).Got?
    ensures s != [] && s[0] == tag
  {
  }

  /** The bytes between p and end are elements with the tag, side by side. */
  ghost predicate ListOf(mem: Bytes, p: nat, end: nat, tag: bv8, bufs: seq<Buf>)
    requires p <= end <= |mem|
  {
    Tiled(mem, p, end, bufs) && forall i :: 0 <= i < |bufs| ==> bufs[i].tag == tag
  }

  ghost predicate IsList(mem: Bytes, p: nat, end: nat, tag: bv8)
    requires p <= end <= |mem|
  {
    exists bufs: seq<Buf> :: ListOf(mem, p, end, tag, bufs)
  }

  /** Reads a sequence of elements with one tag: it succeeds on just the lists, and returns their elements. */
  method GetSequenceOf(mem: Bytes, p: nat, end: nat, tag: bv8) returns (ret: int, q: nat, list: seq<Buf>)
    requires p <= end <= |mem|
    ensures var f := ElementAt(mem[p..end], SEQUENCE);
      && (ret == 0 <==> f.Got? && p + f.content + f.len == end && IsList(mem, p + f.content, end, tag))
      && (ret == 0 ==> ListOf(mem, p + f.content, end, tag, list) && q == end)
  {
    hide ElementAt, Walk, Tiled, Only, Accepts, Shows;
    ret, q, list := TraverseSequenceOf(mem, p, end, Only(tag), Always);
    ghost var f := ElementAt(mem[p..end], SEQUENCE);
    if f.Got? && p + f.content + f.len == end {
      ListExactly(mem, p + f.content, end, tag);
    }
  }

  lemma ListExactly(mem: Bytes, p: nat, end: nat, tag: bv8)
    requires p <= end <= |mem|
    ensures var w := Walk(mem, p, end, Only(tag), Always, []);
      && (w.ret == 0 <==> IsList(mem, p, end, tag))
      && (w.ret == 0 ==> ListOf(mem, p, end, tag, w.seen) && w.cursor == end)
  {
    hide Walk, Tiled, Only, Accepts, Shows;
    OnlyAccepts(tag);
    OnlyMasks(tag);
    WalkToEnd(mem, p, end, Only(tag), Always, []);
    if Walk(mem, p, end, Only(tag), Always, []).ret == 0 {
      var bufs := SuccessTiles(mem, p, end, Only(tag), Always, []);
      assert [] + bufs == bufs;
      assert ListOf(mem, p, end, tag, bufs);
    }
    if IsList(mem, p, end, tag) {
      var bufs: seq<Buf> :| ListOf(mem, p, end, tag, bufs);
      TiledWalks(mem, p, end, tag, bufs, []);
    }
  }

  lemma OnlyMasks(tag: bv8)
    ensures Only(tag).may == 0 && Only(tag).mayVal == 0
  {
  }

  /** Success means the end was reached. */
  lemma {:induction false} WalkToEnd(mem: Bytes, p: nat, end: nat, m: Masks, cb: Callback, seen: seq<Buf>)
    requires p <= end <= |mem|
    ensures Walk(mem, p, end, m, cb, seen).ret == 0 ==> Walk(mem, p, end, m, cb, seen).cursor == end
    decreases end - p
  {
    hide LenAt, Accepts, Shows, Walk, At;
    if p == end {
      WalkEnd(mem, end, m, cb, seen);
    } else {
      WalkStep(mem, p, end, m, cb, seen);
      if Accepts(m, mem[p]) && At(mem, p, end).Got? {
        var b := Buf(mem[p], p + 1 + At(mem, p, end).content, At(mem, p, end).len);
        WalkToEnd(mem, b.start + b.len, end, m, cb, seen);
        WalkToEnd(mem, b.start + b.len, end, m, cb, seen + [b]);
      } else if Accepts(m, mem[p]) {
        BadLength(mem[p + 1..end], mem, p, end);
      }
    }
  }

  lemma BadLength(s: Bytes, mem: Bytes, p: nat, end: nat)
    requires p < end <= |mem| && s == mem[p + 1..end]
    ensures At(mem, p, end).Bad? ==> At(mem, p, end).ret < 0
  {
  }

  // ---------------------------------------------------- algorithm identifiers

  const ZEROED := Buf(0, 0, 0)

  /**
   * The algorithm and parameters in a sequence of an object identifier and at most one more element;
   * or the error.
   */
  datatype Alg = Alg(alg: Buf, params: Buf, cursor: nat) | NoAlg(ret: int)

  function AlgAt(mem: Bytes, p: nat, end: nat): Alg
    requires p <= end <= |mem|
  {
    match ElementAt(mem[p..end], SEQUENCE)
    case Bad(ret, _) => NoAlg(ret)
    case Got(content, len) => AlgIn(mem, p + content, p + content + len)
  }

  /** Inside the sequence. */
  function AlgIn(mem: Bytes, p: nat, end: nat): Alg
    requires p <= end <= |mem|
  {
    match ElementAt(mem[p..end], OID)
    case Bad(ret, _) => NoAlg(ret)
    case Got(content, len) =>
      var oid := Buf(OID, p + content, len);
      var r := oid.start + len;
      if r == end then Alg(oid, ZEROED, end)
      else
        match LenAt(mem[r + 1..end])
        case Bad(ret, _) => NoAlg(ret)
        case Got(c, n) =>
          if r + 1 + c + n != end then NoAlg(LENGTH_MISMATCH) else Alg(oid, Buf(mem[r], r + 1 + c, n), end)
  }

  /** What the routines return for it. */
  predicate Answers(a: Alg, ret: int, q: nat, alg: Buf, params: Buf) {
    match a
    case NoAlg(code) => ret == code != 0
    case Alg(x, y, cursor) => ret == 0 && alg == x && params == y && q == cursor
  }

  method GetAlg(mem: Bytes, p: nat, end: nat) returns (ret: int, q: nat, alg: Buf, params: Buf)
    requires p <= end <= |mem|
    ensures Answers(AlgAt(mem, p, end), ret, q, alg, params)
  {
    hide LenAt;
    alg, params := ZEROED, ZEROED;
    var len;
    ret, q, len := GetTag(mem, p, end, SEQUENCE);
    if ret != 0 { return; }
    if end - q < 1 { ret := OUT_OF_DATA; return; }
    alg := Buf(mem[q], 0, 0);
    var limit := q + len;
    ret, q, len := GetTag(mem, q, limit, OID);
    if ret != 0 { return; }
    alg := Buf(alg.tag, q, len);
    q := q + len;
    if q == limit { return; }
    var tag := mem[q];
    q := q + 1;
    ret, q, len := GetLen(mem, q, limit);
    if ret != 0 { return; }
    params := Buf(tag, q, len);
    q := q + len;
    if q != limit { ret := LENGTH_MISMATCH; }
  }

  method GetAlgNull(mem: Bytes, p: nat, end: nat) returns (ret: int, q: nat, alg: Buf)
    requires p <= end <= |mem|
    ensures match AlgAt(mem, p, end)
      case NoAlg(code) => ret == code
      case Alg(x, y, cursor) =>
        if (y.tag == NULL || y.tag == 0) && y.len == 0 then ret == 0 && alg == x && q == cursor else ret == INVALID_DATA
  {
    var params;
    ret, q, alg, params := GetAlg(mem, p, end);
    if ret != 0 { return; }
    if (params.tag != NULL && params.tag != 0) || params.len != 0 { ret := INVALID_DATA; }
  }

  /** An algorithm identifier written is read as the same identifier and the same parameter element. */
  lemma AlgRead(mem: Bytes, p: nat, end: nat, oid: Bytes, tag: bv8, params: Bytes)
    requires |oid| <= MAX_LEN && |params| <= MAX_LEN && |Tlv(OID, oid)| + |Tlv(tag, params)| <= MAX_LEN
    requires p + |AlgorithmIdentifier(oid, Tlv(tag, params))| <= end <= |mem|
    requires mem[p..p + |AlgorithmIdentifier(oid, Tlv(tag, params))|] == AlgorithmIdentifier(oid, Tlv(tag, params))
    ensures var a := AlgAt(mem, p, end);
      && a.Alg? && a.cursor == p + |AlgorithmIdentifier(oid, Tlv(tag, params))|
      && a.alg.tag == OID && a.alg.start + a.alg.len <= |mem| && mem[a.alg.start..a.alg.start + a.alg.len] == oid
      && a.params.tag == tag && a.params.start + a.params.len == a.cursor
      && mem[a.params.start..a.params.start + a.params.len] == params
  {
    hide ElementAt, DerLen, Tlv, AlgIn;
    var body := Tlv(OID, oid) + Tlv(tag, params);
    var all := Tlv(SEQUENCE, body);
    var q := p + |all|;
    assert mem[p..end] == all + mem[q..end];
    ElementRead(SEQUENCE, body, mem[q..end]);
    TlvEnds(SEQUENCE, body);
    SplitAt(mem, p, q, all[..|all| - |body|], body);
    InsideRead(mem, q - |body|, q, oid, tag, params);
  }

  lemma InsideRead(mem: Bytes, p: nat, end: nat, oid: Bytes, tag: bv8, params: Bytes)
    requires |oid| <= MAX_LEN && |params| <= MAX_LEN
    requires p <= end <= |mem| && mem[p..end] == Tlv(OID, oid) + Tlv(tag, params)
    ensures var a := AlgIn(mem, p, end);
      && a.Alg? && a.cursor == end
      && a.alg.tag == OID && a.alg.start + a.alg.len <= |mem| && mem[a.alg.start..a.alg.start + a.alg.len] == oid
      && a.params.tag == tag && a.params.start + a.params.len == end
      && mem[a.params.start..end] == params
  {
    hide ElementAt, LenAt, DerLen, Tlv;
    ElementRead(OID, oid, Tlv(tag, params));
    var t, u := Tlv(OID, oid), Tlv(tag, params);
    SplitAt(mem, p, end, t, u);
    TlvEnds(OID, oid);
    SplitAt(mem, p, p + |t|, t[..|t| - |oid|], oid);
    var r := p + |t|;
    TlvFront(tag, params);
    SplitAt(mem, r, end, [tag], DerLen(|params|) + params);
    LenRead(|params|, params);
    SplitAt(mem, r + 1, end, DerLen(|params|), params);
  }

  /** Writing an identifier with NULL parameters and reading it back: as many bytes read as written. */
  method AlgRoundTrip(buf: array<bv8>, start: nat, p: nat, oid: Bytes)
    returns (ret: int, code: int, alg: Buf, consumed: nat)
    requires p <= buf.Length <= INT_MAX
    modifies buf
    ensures ret > 0 || ret == BUF_TOO_SMALL
    ensures ret > 0 ==> code == 0 && consumed == ret && alg.tag == OID && alg.start + alg.len <= buf.Length
    ensures ret > 0 ==> buf[alg.start..alg.start + alg.len] == oid
  {
    hide DerLen, Tlv, AlgAt, AlgorithmIdentifier;
    code, alg, consumed := 0, ZEROED, 0;
    var q;
    ret, q := WriteAlgorithmIdentifier(buf, start, p, oid, 0);
    if |oid| > INT_MAX { return; }
    TlvSize(NULL, []);
    TlvSize(OID, oid);
    ghost var enc := AlgorithmIdentifier(oid, Tlv(NULL, []));
    AlgSize(oid, Tlv(NULL, []));
    if ret < 0 {
      Fails(old(buf[..]), buf[..], start, p, ret, q, enc, enc);
      return;
    }
    WrittenThere(old(buf[..]), buf[..], start, p, ret, q, enc);
    hide Written;
    AlgRead(buf[..], q, p, oid, NULL, []);
    var r;
    code, r, alg := GetAlgNull(buf[..], q, p);
    consumed := r - q;
  }

  lemma AlgSize(oid: Bytes, params: Bytes)
    requires |oid| <= MAX_LEN && |Tlv(OID, oid)| + |params| <= MAX_LEN
    ensures |AlgorithmIdentifier(oid, params)| > 0
  {
    hide DerLen;
  }
}
