/**
 * Extended attributes in their buffer: find, get and set, each tied to the map
 * from (index, name) to value that the buffer holds.
 */
module Xattr {
  import opened Common
  import opened XattrCodec

  const PAGE: nat := 4096
  const FOOTER: nat := 24                // sizeof(struct node_footer)
  const NAME_LEN: nat := 255

  /** MIN_OFFSET: entries end at or before this offset */
  function MinOffset(inlineSize: nat): (r: nat) {
    Align(inlineSize + PAGE - FOOTER - 4)
  }

  /** MAX_VALUE_LEN */
  function MaxValueLen(inlineSize: nat): (r: int) {
    MinOffset(inlineSize) - HEADER - FIXED
  }

  /** An entry whose first word is zero: it cannot be told from the end of the list. */
  predicate Blank(index: nat, name: Bytes, value: Bytes) {
    index == 0 && |name| == 0 && |value| == 0
  }

  /** What can be read back after a value has been set. */
  function Stored(index: nat, name: Bytes, value: Option<Bytes>): (r: Option<Bytes>) {
    if value.Some? && Blank(index, name, value.value) then None else value
  }

  datatype Status = Done | NoData | Exists | Range | NoSpace

  // ---- memory operations ----

  method MemSet(a: array<nat>, at: nat, n: nat)
    requires at + n <= a.Length
    modifies a
    ensures forall k :: 0 <= k < a.Length ==> a[k] == if at <= k < at + n then 0 else old(a[k])
  {
    for i := 0 to n
      invariant forall k :: 0 <= k < a.Length ==> a[k] == if at <= k < at + i then 0 else old(a[k])
    {
      a[at + i] := 0;
    }
  }

  method MemCpy(a: array<nat>, at: nat, src: Bytes)
    requires at + |src| <= a.Length
    modifies a
    ensures forall k :: 0 <= k < a.Length ==> a[k] == if at <= k < at + |src| then src[k - at] else old(a[k])
  {
    for i := 0 to |src|
      invariant forall k :: 0 <= k < a.Length ==> a[k] == if at <= k < at + i then src[k - at] else old(a[k])
    {
      a[at + i] := src[i];
    }
  }

  /** memmove to a lower address */
  method MemMove(a: array<nat>, to: nat, from: nat, end: nat)
    requires to <= from <= end <= a.Length
    modifies a
    ensures forall k :: 0 <= k < a.Length ==>
      a[k] == if to <= k < to + (end - from) then old(a[k + (from - to)]) else old(a[k])
  {
    for i := 0 to end - from
      invariant forall k :: 0 <= k < a.Length ==>
        a[k] == if to <= k < to + i then old(a[k + (from - to)]) else old(a[k])
    {
      a[to + i] := a[from + i];
    }
  }

  /** Move the bytes behind an entry over it and clear what is left at the end. */
  method CutOut(a: array<nat>, here: nat, size: nat, last: nat)
    requires here + size <= last <= a.Length
    modifies a
    ensures a[..] == old(a[..])[..here] + old(a[..])[here + size..last] + Zeros(size) + old(a[..])[last..]
  {
    ghost var b := a[..];
    MemMove(a, here, here + size, last);
    MemSet(a, last - size, size);
    CutAt(b, here, size, last, a[..]);
  }

  lemma CutAt(b: Bytes, here: nat, size: nat, last: nat, c: Bytes)
    requires here + size <= last <= |b| == |c|
    requires forall k :: 0 <= k < here ==> c[k] == b[k]
    requires forall k :: here <= k < last - size ==> c[k] == b[k + size]
    requires forall k :: last - size <= k < last ==> c[k] == 0
    requires forall k :: last <= k < |b| ==> c[k] == b[k]
    ensures c == b[..here] + b[here + size..last] + Zeros(size) + b[last..]
  {
    assert c[..here] == b[..here];
    assert c[here..last - size] == b[here + size..last];
    assert c[last - size..last] == Zeros(size);
    assert c[last..] == b[last..];
    assert c == c[..here] + c[here..last - size] + c[last - size..last] + c[last..];
  }

  /** Write an entry field by field, as __f2fs_setxattr does. */
  method WriteFields(a: array<nat>, last: nat, index: nat, name: Bytes, value: Bytes)
    requires last + Size(Entry(Key(index, name), value)) <= a.Length
    modifies a
    ensures var e := Entry(Key(index, name), value);
      a[..] == old(a[..])[..last] + Enc(e) + old(a[..])[last + Size(e)..]
  {
    ghost var b, e := a[..], Entry(Key(index, name), value);
    MemSet(a, last, Align(FIXED + |name| + |value|));
    MemCpy(a, last, [index, |name|]);
    MemCpy(a, last + 4, name);
    MemCpy(a, last + 4 + |name|, value);
    MemCpy(a, last + 2, [|value| % 256, |value| / 256]);
    ghost var r := b[..last] + Enc(e) + b[last + Size(e)..];
    forall k | 0 <= k < a.Length ensures a[k] == r[k] {
      if last <= k < last + Size(e) {
        EncByte(e, k - last);
      }
    }
  }

  // ---- the attributes of an inode ----

  class Attributes {
    const inlineSize: nat
    const buf: array<nat>
    ghost var es: seq<Entry>

    /** The usable part of the buffer ends four bytes behind MIN_OFFSET, at the node footer. */
    ghost predicate Valid()
      reads this, buf
    {
      && buf.Length == MinOffset(inlineSize) + 4 && buf.Length < 65536
      && Holds(buf[..], es) && Unique(es)
    }

    /** A fresh buffer. */
    constructor (size: nat)
      requires MinOffset(size) + 4 < 65536
      ensures Valid() && es == [] && fresh(buf) && inlineSize == size
    {
      inlineSize := size;
      es := [];
      buf := new nat[MinOffset(size) + 4](i => 0);
      new;
      assert buf[..][HEADER..] == EncAll([]) + Zeros(|buf[..]| - HEADER);
    }

    /** IS_XATTR_LAST_ENTRY */
    predicate IsLast(o: nat)
      requires o + 4 <= buf.Length
      reads buf
    {
      buf[o] == 0 && buf[o + 1] == 0 && buf[o + 2] == 0 && buf[o + 3] == 0
    }

    /** ENTRY_SIZE */
    function EntrySize(o: nat): (r: nat)
      requires o + 4 <= buf.Length
      reads buf
    {
      Align(FIXED + buf[o + 1] + (buf[o + 2] + 256 * buf[o + 3]))
    }

    /** __find_xattr: the entry of the key, or the end */
    method FindXattr(index: nat, name: Bytes) returns (o: nat, ghost i: nat)
      requires Valid()
      ensures i <= |es| && o == OffsetOf(es, i) && o + 4 <= buf.Length && (IsLast(o) <==> i == |es|)
      ensures i < |es| ==> es[i].key == Key(index, name) && EntrySize(o) == Size(es[i])
      ensures forall k :: 0 <= k < i ==> es[k].key != Key(index, name)
    {
      HoldsWalkable(buf[..], es);
      o, i := Walk(index, name, Offsets(es));
    }

    method Walk(index: nat, name: Bytes, ghost at: seq<nat>) returns (o: nat, ghost i: nat)
      requires Walkable(buf[..], es, at)
      ensures i <= |es| && o == at[i] && o + 4 <= buf.Length && (IsLast(o) <==> i == |es|)
      ensures i < |es| ==> es[i].key == Key(index, name) && EntrySize(o) == Size(es[i])
      ensures forall k :: 0 <= k < i ==> es[k].key != Key(index, name)
    {
      o, i := HEADER, 0;
      StepTo(o, 0, at);
      while !IsLast(o)
        invariant i <= |es| && o == at[i] && o + 4 <= buf.Length && (IsLast(o) <==> i == |es|)
        invariant i < |es| ==> EntrySize(o) == Size(es[i]) && Shows(buf[..], o, es[i])
        invariant forall k :: 0 <= k < i ==> es[k].key != Key(index, name)
        decreases |es| - i
      {
        var same := SameKey(o, index, name, es[i]);
        if same {
          return;
        }
        NextAt(buf[..], es, at, i);
        o := o + EntrySize(o);
        i := i + 1;
        StepTo(o, i, at);
      }
    }

    /** Arriving at entry `i`, or at the end. */
    lemma StepTo(o: nat, i: nat, at: seq<nat>)
      requires Walkable(buf[..], es, at) && i <= |es| && o == at[i]
      ensures o + 4 <= buf.Length && (IsLast(o) <==> i == |es|)
      ensures i < |es| ==> EntrySize(o) == Size(es[i]) && Shows(buf[..], o, es[i])
    {
      if i < |es| {
        assert Shows(buf[..], at[i], es[i]);
      }
    }

    method SameKey(o: nat, index: nat, name: Bytes, ghost e: Entry) returns (same: bool)
      requires Shows(buf[..], o, e)
      ensures same <==> e.key == Key(index, name)
    {
      var len := buf[o + 1];
      assert buf[o + 4..o + 4 + len] == buf[..][o + 4..o + 4 + len];
      same := buf[o] == index && len == |name| && buf[o + 4..o + 4 + len] == name;
    }

    /** f2fs_getxattr with a buffer of `room` bytes: the value the map has, or the reason there is none */
    method GetXattr(index: nat, name: Bytes, room: nat) returns (r: Status, value: Bytes)
      requires Valid()
      ensures |name| > NAME_LEN ==> r == Range
      ensures |name| <= NAME_LEN ==>
        match Get(es, Key(index, name))
        case None => r == NoData
        case Some(v) => if |v| > room then r == Range else r == Done && value == v
    {
      value := [];
      if |name| > NAME_LEN {
        return Range, [];
      }
      var o;
      ghost var i;
      o, i := FindXattr(index, name);
      if IsLast(o) {
        return NoData, [];
      }
      ReadEntry(buf[..], es, i);
      GetAt(es, i);
      r, value := ReadValue(o, room, es[i]);
    }

    method ReadValue(o: nat, room: nat, ghost e: Entry) returns (r: Status, value: Bytes)
      requires Shows(buf[..], o, e)
      ensures if |e.value| > room then r == Range else r == Done && value == e.value
    {
      var size := buf[o + 2] + 256 * buf[o + 3];
      if size > room {
        return Range, [];
      }
      var at := o + 4 + buf[o + 1];
      assert buf[at..at + size] == buf[..][at..at + size];
      return Done, buf[at..at + size];
    }

    /** The walk from an entry to the end mark. */
    method FindLast(o: nat, ghost i: nat) returns (last: nat)
      requires Valid() && i <= |es| && o == OffsetOf(es, i)
      ensures last == OffsetOf(es, |es|) && last + 4 <= buf.Length
    {
      HoldsWalkable(buf[..], es);
      last := WalkOn(o, i, Offsets(es));
    }

    method WalkOn(o: nat, ghost i: nat, ghost at: seq<nat>) returns (last: nat)
      requires Walkable(buf[..], es, at) && i <= |es| && o == at[i]
      ensures last == at[|es|] && last + 4 <= buf.Length
    {
      last := o;
      ghost var k := i;
      StepTo(last, k, at);
      while !IsLast(last)
        invariant i <= k <= |es| && last == at[k] && last + 4 <= buf.Length && (IsLast(last) <==> k == |es|)
        invariant k < |es| ==> EntrySize(last) == Size(es[k])
        decreases |es| - k
      {
        last := last + EntrySize(last);
        k := k + 1;
        StepTo(last, k, at);
      }
    }

    /** Step 2 of __f2fs_setxattr: close the gap an entry leaves */
    method RemoveEntry(here: nat, last: nat, size: nat, ghost i: nat)
      requires Valid() && i < |es| && here == OffsetOf(es, i) && last == OffsetOf(es, |es|) && size == Size(es[i])
      modifies buf, `es
      ensures Valid() && es == Drop(old(es), i)
      ensures OffsetOf(es, |es|) == last - size
    {
      AfterDrop(buf[..], es, i, here, size, last);
      CutOut(buf, here, size, last);
      es := Drop(es, i);
    }

    /** Step 3 of __f2fs_setxattr: write an entry over the end mark */
    method AppendEntry(last: nat, index: nat, name: Bytes, value: Bytes)
      requires Valid() && last == OffsetOf(es, |es|) && EntryOk(Entry(Key(index, name), value))
      requires last + Size(Entry(Key(index, name), value)) + 4 <= buf.Length
      requires forall i :: 0 <= i < |es| ==> es[i].key != Key(index, name)
      modifies buf, `es
      ensures Valid() && es == old(es) + [Entry(Key(index, name), value)]
    {
      ghost var e := Entry(Key(index, name), value);
      PushBytes(buf[..], es, e);
      PushGet(es, e, e.key);
      WriteFields(buf, last, index, name, value);
      es := es + [e];
    }

    /** Writing an entry that is all zero changes nothing. */
    method AppendBlank(last: nat)
      requires Valid() && last == OffsetOf(es, |es|)
      modifies buf
      ensures Valid() && buf[..] == old(buf[..])
    {
      ReadEnd(buf[..], es);
      ghost var e := Entry(Key(0, []), []);
      assert Size(e) == 4 && Enc(e) == [0, 0, 0, 0];
      WriteFields(buf, last, 0, [], []);
      assert buf[..] == old(buf[..]);
    }

    /**
     * __f2fs_setxattr; no value means remove.  The flags fail exactly when the
     * map says so, space runs out exactly when the entries would pass
     * MIN_OFFSET, and success changes the map at this key only.  The new
     * value is there afterwards, except when index, name and value are all
     * empty: such an entry reads as the end of the list.
     */
    method SetXattr(index: nat, name: Bytes, value: Option<Bytes>, create: bool, replace: bool) returns (r: Status)
      requires Valid() && index < 256
      modifies buf, `es
      ensures Valid()
      ensures r == (
        var size := if value.Some? then |value.value| else 0;
        var there := old(Get(es, Key(index, name)));
        if |name| > NAME_LEN || size > MaxValueLen(inlineSize) then Range
        else if replace && there.None? then NoData
        else if create && there.Some? then Exists
        else if value.Some? && !old(Fits(index, name, value.value)) then NoSpace
        else Done)
      ensures r != Done ==> es == old(es)
      ensures r == Done ==>
        forall k: Key :: Get(es, k) == if k == Key(index, name) then Stored(index, name, value) else old(Get(es, k))
    {
      var size := if value.Some? then |value.value| else 0;
      if |name| > NAME_LEN || size > MaxValueLen(inlineSize) {
        return Range;
      }
      var here;
      ghost var i;
      here, i := FindXattr(index, name);
      var found := !IsLast(here);
      Lookup(es, Key(index, name), i);
      if replace && !found {
        return NoData;
      } else if create && found {
        return Exists;
      }
      var last := FindLast(here, i);
      if value.Some? {
        var free := MinOffset(inlineSize) - last;
        if found {
          free := free + EntrySize(here);
        }
        FreeSpace(es, i);
        if free < Align(FIXED + |name| + size) {
          return NoSpace;
        }
      }
      r := Replace(here, last, index, name, value, i);
    }

    /** The room the entries of other keys leave below MIN_OFFSET. */
    ghost predicate Fits(index: nat, name: Bytes, value: Bytes)
      reads this
    {
      Others(es, Key(index, name)) + Size(Entry(Key(index, name), value)) + HEADER <= MinOffset(inlineSize)
    }

    /** Steps 2 and 3: take the old entry out, put the new one at the end. */
    method Replace(here: nat, last: nat, index: nat, name: Bytes, value: Option<Bytes>, ghost i: nat) returns (r: Status)
      requires Valid() && index < 256 && |name| <= NAME_LEN && here + 4 <= buf.Length
      requires value.Some? ==> |value.value| < 65536
      requires i <= |es| && here == OffsetOf(es, i) && last == OffsetOf(es, |es|) && (IsLast(here) <==> i == |es|)
      requires i < |es| ==> es[i].key == Key(index, name) && EntrySize(here) == Size(es[i])
      requires i == |es| ==> forall k :: 0 <= k < |es| ==> es[k].key != Key(index, name)
      requires value.Some? ==>
        last - (if i < |es| then Size(es[i]) else 0) + Size(Entry(Key(index, name), value.value)) + 4 <= buf.Length
      modifies buf, `es
      ensures Valid() && r == Done
      ensures forall k: Key :: Get(es, k) == if k == Key(index, name) then Stored(index, name, value) else old(Get(es, k))
    {
      var end := last;
      ghost var mid := es;
      if !IsLast(here) {
        end := last - EntrySize(here);
        RemoveEntry(here, last, EntrySize(here), i);
        mid := es;
      }
      assert forall k: Key :: Get(mid, k) == if k == Key(index, name) then None else old(Get(es, k)) by {
        forall k: Key ensures Get(mid, k) == if k == Key(index, name) then None else old(Get(es, k)) {
          if i < |old(es)| { DropGet(old(es), i, k); }
        }
      }
      assert forall j :: 0 <= j < |es| ==> es[j].key != Key(index, name) by {
        forall j | 0 <= j < |es| ensures es[j].key != Key(index, name) { GetAt(es, j); }
      }
      if value.Some? && Blank(index, name, value.value) {
        AppendBlank(end);
      } else if value.Some? {
        AppendEntry(end, index, name, value.value);
        forall k: Key ensures Get(es, k) == if k == Key(index, name) then value else Get(mid, k) {
          PushGet(mid, Entry(Key(index, name), value.value), k);
        }
      }
      r := Done;
    }
  }

  /** Bytes taken by the entries of keys other than `k`. */
  ghost function Others(es: seq<Entry>, k: Key): (r: nat) {
    if es == [] then 0
    else Others(es[..|es| - 1], k) + if es[|es| - 1].key == k then 0 else Size(es[|es| - 1])
  }

  lemma NextAt(b: Bytes, es: seq<Entry>, at: seq<nat>, i: nat)
    requires Walkable(b, es, at) && i < |es|
    ensures at[i + 1] == at[i] + Size(es[i])
  {
  }

  lemma {:induction false} AfterDrop(b: Bytes, es: seq<Entry>, i: nat, here: nat, size: nat, last: nat)
    requires Holds(b, es) && Unique(es) && i < |es|
    requires here == OffsetOf(es, i) && size == Size(es[i]) && last == OffsetOf(es, |es|)
    ensures here + size <= last <= |b| && Unique(Drop(es, i)) && |Drop(es, i)| == |es| - 1
    ensures Holds(b[..here] + b[here + size..last] + Zeros(size) + b[last..], Drop(es, i))
    ensures |b[..here] + b[here + size..last] + Zeros(size) + b[last..]| == |b|
    ensures OffsetOf(Drop(es, i), |Drop(es, i)|) == last - size
  {
    DropBytes(b, es, i, here, size, last);
    DropGet(es, i, es[i].key);
  }

  lemma Lookup(es: seq<Entry>, k: Key, i: nat)
    requires Unique(es) && i <= |es| && (i < |es| ==> es[i].key == k) && forall j :: 0 <= j < i ==> es[j].key != k
    ensures Get(es, k).Some? <==> i < |es|
  {
    if i < |es| {
      GetAt(es, i);
    }
  }

  lemma {:induction false} OthersAll(es: seq<Entry>, k: Key)
    requires forall j :: 0 <= j < |es| ==> es[j].key != k
    ensures Others(es, k) == |EncAll(es)|
  {
    if es != [] {
      OthersAll(es[..|es| - 1], k);
    }
  }

  lemma {:induction false} OthersBut(es: seq<Entry>, i: nat)
    requires Unique(es) && i < |es|
    ensures Others(es, es[i].key) == |EncAll(es)| - Size(es[i])
  {
    var n := |es| - 1;
    if i == n {
      OthersAll(es[..n], es[i].key);
    } else {
      OthersBut(es[..n], i);
    }
  }

  lemma {:induction false} FreeSpace(es: seq<Entry>, i: nat)
    requires Unique(es) && i <= |es|
    ensures i < |es| ==> Others(es, es[i].key) == OffsetOf(es, |es|) - HEADER - Size(es[i])
    ensures forall k: Key :: (i == |es| && (forall j :: 0 <= j < |es| ==> es[j].key != k)) ==>
      Others(es, k) == OffsetOf(es, |es|) - HEADER
  {
    assert es[..|es|] == es;
    if i < |es| {
      OthersBut(es, i);
    } else {
      forall k: Key | forall j :: 0 <= j < |es| ==> es[j].key != k ensures Others(es, k) == OffsetOf(es, |es|) - HEADER {
        OthersAll(es, k);
      }
    }
  }
}
