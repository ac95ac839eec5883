/**
  A multicast delegate: a head callback (the delegate itself) followed by a tail of
  callbacks kept in a shared, possibly oversized array. Combining appends to that
  array in place when the delegate can claim ownership of it, so several delegates
  may share one array, each reading only its own first invocationListLength
  entries. From the outside every delegate behaves as an immutable list.
*/
module MulticastDelegates {
  import opened Wrappers
  import opened InvocationLists

  /** The C# int. */
  newtype int32 = x: int | -0x8000_0000 <= x < 0x8000_0000

  /** Unchecked C# int arithmetic: x reduced to the int32 congruent to it modulo 2^32. */
  function WrapInt32(x: int): (r: int32)
    ensures (r as int - x) % 0x1_0000_0000 == 0
  {
    ((x + 0x8000_0000) % 0x1_0000_0000 - 0x8000_0000) as int32
  }

  /**
    The doubling loop of CombineImpl and RemoveSliceFromInvocationList: start from
    a capacity and double it until need entries fit.
  */
  method GrowCapacity(start: int, need: int) returns (len: int)
    requires 1 <= start
    ensures len == Capacity(start, need)
  {
    len := start;
    while len < need
      invariant 1 <= len
      invariant Capacity(len, need) == Capacity(start, need)
      decreases need - len
    {
      len := len * 2;
    }
  }

  class MulticastDelegate {
    /** The delegate's own target and method: what it is without its tail. */
    const head: Callback
    /** The shared array holding the tail; null when there is no tail. */
    const invocationList: array?<Callback>
    /** How many entries of invocationList belong to this delegate. */
    const invocationListLength: nat
    /** 1 while this delegate may still append in place to invocationList, else 0. */
    var ownsInvocationList: int

    /**
      The shape of the representation: a tail exactly when there is an array, the
      tail within the array, and the array's capacity 4 * 2^k.
    */
    ghost predicate Valid()
    {
      && (invocationList == null <==> invocationListLength == 0)
      && (invocationList != null ==>
            invocationListLength <= invocationList.Length && IsCapacity(invocationList.Length))
    }

    /** The ownership flag only ever holds 0 or 1. */
    ghost predicate OwnershipFlagIsBit()
      reads this
    {
      ownsInvocationList == 0 || ownsInvocationList == 1
    }

    /** The tail this delegate sees. */
    ghost function Tail(): (t: seq<Callback>)
      reads invocationList
      requires Valid()
      ensures |t| == invocationListLength
    {
      if invocationList == null then [] else invocationList[..invocationListLength]
    }

    /** The callbacks this delegate invokes, in order: what GetInvocationList returns. */
    ghost function Flattened(): (s: seq<Callback>)
      reads invocationList
      requires Valid()
      ensures |s| == invocationListLength + 1 && s[0] == head
    {
      [head] + Tail()
    }

    /**
      The ownership protocol, as seen from this delegate and another one: if this
      delegate still owns its array, no delegate sharing it sees more entries.
      Combine passes ownership to its result, which sees more entries than both
      operands, and Remove gives ownership only together with a fresh array.
    */
    ghost predicate OwnerHasLongestView(other: MulticastDelegate)
      reads this
    {
      other.invocationList == invocationList && ownsInvocationList == 1 ==>
        other.invocationListLength <= invocationListLength
    }

    /** CombineImpl appends in place: the array exists, is long enough, and is owned. */
    ghost predicate CanAppendInPlace(other: MulticastDelegate)
      reads this
    {
      && invocationList != null
      && invocationListLength + 1 + other.invocationListLength <= invocationList.Length
      && ownsInvocationList == 1
    }

    /**
      The capacity CombineImpl starts doubling from: the array's, or 4 without one.
      Either way it is 4 * 2^k, so the doubled capacity is too.
    */
    function GrowthStart(): (c: int)
      requires Valid()
      ensures 1 <= c && IsCapacity(c)
      ensures invocationList != null ==> c == invocationList.Length
    {
      if invocationList == null then InitialCapacity else invocationList.Length
    }

    /** CloneWithNewInvocationList: a delegate with the given head and tail, not owning it. */
    constructor (head: Callback, invocationList: array?<Callback>, invocationListLength: nat)
      ensures this.head == head && this.invocationList == invocationList
      ensures this.invocationListLength == invocationListLength
      ensures ownsInvocationList == 0
    {
      this.head := head;
      this.invocationList := invocationList;
      this.invocationListLength := invocationListLength;
      ownsInvocationList := 0;
    }

    /**
      Interlocked.CompareExchange(ref ownsInvocationList, 0, 1), taken as one
      sequential step: clear the flag if it is 1 and report its previous value.
    */
    method CompareExchangeOwnership() returns (original: int)
      modifies this`ownsInvocationList
      ensures original == old(ownsInvocationList)
      ensures ownsInvocationList == if original == 1 then 0 else original
    {
      original := ownsInvocationList;
      if original == 1 {
        ownsInvocationList := 0;
      }
    }

    /** This delegate without its tail. */
    method WithoutInvocationList() returns (r: MulticastDelegate)
      requires Valid()
      ensures r.Valid() && r.Flattened() == [head]
      ensures invocationListLength == 0 ==> r == this
      ensures invocationListLength != 0 ==> fresh(r) && r.ownsInvocationList == 0
    {
      if invocationListLength == 0 {
        return this;
      }
      r := new MulticastDelegate(head, null, 0);
    }

    /**
      CombineImpl: the delegate that invokes this delegate's list and then other's.
      Entries are written only past this delegate's own length, so every delegate
      sharing the array with at most that many entries still sees the same tail.
    */
    method Combine(other: MulticastDelegate?) returns (r: MulticastDelegate)
      requires Valid() && OwnershipFlagIsBit()
      requires other != null ==> other.Valid() && OwnerHasLongestView(other)
      modifies this`ownsInvocationList, invocationList
      ensures OwnershipFlagIsBit() && Tail() == old(Tail())
      ensures other == null ==> r == this && ownsInvocationList == old(ownsInvocationList)
      ensures other == null && invocationList != null ==> unchanged(invocationList)
      ensures other != null ==> other.Tail() == old(other.Tail())
      ensures other != null ==>
                && fresh(r) && r.Valid() && r.head == head && r.ownsInvocationList == 1
                && r.invocationListLength == invocationListLength + 1 + other.invocationListLength
                && r.Tail() == old(Tail()) + [other.head] + old(other.Tail())
      ensures other != null ==>
                (r.invocationList == invocationList <==> old(CanAppendInPlace(other)))
      ensures other != null && old(CanAppendInPlace(other)) ==> ownsInvocationList == 0
      ensures other != null && !old(CanAppendInPlace(other)) ==>
                && fresh(r.invocationList)
                && ownsInvocationList == old(ownsInvocationList)
                && r.invocationList.Length == Capacity(GrowthStart(), r.invocationListLength)
      ensures other != null && !old(CanAppendInPlace(other)) && invocationList != null ==> unchanged(invocationList)
    {
      if other == null {
        return this;
      }
      var newInvLen := invocationListLength + 1 + other.invocationListLength;
      var newInvList := CombinedList(other);
      r := new MulticastDelegate(head, newInvList, newInvLen);
      r.ownsInvocationList := 1;
    }

    /**
      The array behind CombineImpl's result: this delegate's own array with
      other's list written behind the tail when that is allowed, a new array
      holding both otherwise.
    */
    method CombinedList(other: MulticastDelegate) returns (newInvList: array<Callback>)
      requires Valid() && OwnershipFlagIsBit() && other.Valid() && OwnerHasLongestView(other)
      modifies this`ownsInvocationList, invocationList
      ensures OwnershipFlagIsBit() && Tail() == old(Tail()) && other.Tail() == old(other.Tail())
      ensures invocationListLength + 1 + other.invocationListLength <= newInvList.Length
      ensures IsCapacity(newInvList.Length)
      ensures newInvList[..invocationListLength + 1 + other.invocationListLength] ==
                old(Tail()) + [other.head] + old(other.Tail())
      ensures newInvList == invocationList <==> old(CanAppendInPlace(other))
      ensures old(CanAppendInPlace(other)) ==> ownsInvocationList == 0
      ensures !old(CanAppendInPlace(other)) ==>
                && fresh(newInvList)
                && ownsInvocationList == old(ownsInvocationList)
                && newInvList.Length == Capacity(GrowthStart(), invocationListLength + 1 + other.invocationListLength)
      ensures !old(CanAppendInPlace(other)) && invocationList != null ==> unchanged(invocationList)
    {
      var appended := TryAppendInPlace(other);
      if appended {
        newInvList := invocationList;
      } else {
        newInvList := CopyToNewList(invocationList, invocationListLength,
                                    other.head, other.invocationList, other.invocationListLength);
      }
    }

    /**
      The first half of CombineImpl: when the array exists, is long enough and the
      ownership flag can be claimed, write other's head and tail behind this
      delegate's tail. Nothing is written otherwise.
    */
    method TryAppendInPlace(other: MulticastDelegate) returns (appended: bool)
      requires Valid() && OwnershipFlagIsBit() && other.Valid() && OwnerHasLongestView(other)
      modifies this`ownsInvocationList, invocationList
      ensures OwnershipFlagIsBit() && Tail() == old(Tail()) && other.Tail() == old(other.Tail())
      ensures appended == old(CanAppendInPlace(other))
      ensures appended ==>
                && ownsInvocationList == 0
                && invocationList[..invocationListLength + 1 + other.invocationListLength] ==
                     old(Tail()) + [other.head] + old(other.Tail())
      ensures !appended ==> ownsInvocationList == old(ownsInvocationList)
      ensures !appended && invocationList != null ==> unchanged(invocationList)
    {
      ghost var curTail, oTail := Tail(), other.Tail();
      var oInvList := other.invocationList;
      var oInvLen := other.invocationListLength;
      var o := other.head; // other without its own tail: the list stays flat

      var newInvList := invocationList;
      var curInvLen := invocationListLength;
      var newInvLen := curInvLen + 1 + oInvLen;

      var needNewList := newInvList == null || newInvList.Length < newInvLen;
      if needNewList {
        return false;
      }
      var original := CompareExchangeOwnership();
      if original == 0 {
        return false;
      }
      AppendFlattened(newInvList, curInvLen, o, oInvList, oInvLen);
      assert other.Tail() == oTail by {
        if oInvList == newInvList {
          assert oInvList[..oInvLen] == newInvList[..curInvLen][..oInvLen];
        }
      }
      assert newInvList[..newInvLen] == newInvList[..curInvLen] + newInvList[curInvLen..newInvLen];
      return true;
    }

    /**
      The writes of CombineImpl past the current length: o, then the first oInvLen
      entries of oInvList. oInvList may be list itself as long as what is read lies
      below what is written.
    */
    static method AppendFlattened(list: array<Callback>, curInvLen: nat, o: Callback,
                                  oInvList: array?<Callback>, oInvLen: nat)
      requires curInvLen + 1 + oInvLen <= list.Length
      requires oInvList == null ==> oInvLen == 0
      requires oInvList != null ==> oInvLen <= oInvList.Length
      requires oInvList == list ==> oInvLen <= curInvLen
      modifies list
      ensures list[..curInvLen] == old(list[..curInvLen])
      ensures list[curInvLen..curInvLen + 1 + oInvLen] ==
                [o] + old(if oInvList == null then [] else oInvList[..oInvLen])
    {
      ghost var oTail := if oInvList == null then [] else oInvList[..oInvLen];
      ghost var prefix := list[..curInvLen];
      list[curInvLen] := o;
      for i := 0 to oInvLen
        invariant forall k :: 0 <= k < curInvLen ==> list[k] == prefix[k]
        invariant list[curInvLen] == o
        invariant forall k :: 0 <= k < i ==> list[curInvLen + 1 + k] == oTail[k]
        invariant oInvList != null ==> forall k :: i <= k < oInvLen ==> oInvList[k] == oTail[k]
      {
        list[curInvLen + 1 + i] := oInvList[i];
      }
      assert list[..curInvLen] == prefix;
      assert list[curInvLen..curInvLen + 1 + oInvLen] == [o] + oTail;
    }

    /**
      The allocating path of CombineImpl: a new array whose capacity is the old
      array's (4 when there is none) doubled until the combined tail fits, holding
      the current tail, then o, then other's tail.
    */
    static method CopyToNewList(curInvList: array?<Callback>, curInvLen: nat, o: Callback,
                                oInvList: array?<Callback>, oInvLen: nat)
      returns (list: array<Callback>)
      requires curInvList == null ==> curInvLen == 0
      requires curInvList != null ==> 1 <= curInvLen <= curInvList.Length && IsCapacity(curInvList.Length)
      requires oInvList == null ==> oInvLen == 0
      requires oInvList != null ==> oInvLen <= oInvList.Length
      ensures fresh(list) && IsCapacity(list.Length)
      ensures curInvList == null ==> list.Length == Capacity(InitialCapacity, curInvLen + 1 + oInvLen)
      ensures curInvList != null ==> list.Length == Capacity(curInvList.Length, curInvLen + 1 + oInvLen)
      ensures list[..curInvLen + 1 + oInvLen] ==
                (if curInvList == null then [] else curInvList[..curInvLen]) + [o]
                + (if oInvList == null then [] else oInvList[..oInvLen])
    {
      var len := GrowCapacity(if curInvList == null then InitialCapacity else curInvList.Length, curInvLen + 1 + oInvLen);
      list := new Callback[len];
      for i := 0 to curInvLen
        invariant curInvList != null ==> forall k :: 0 <= k < i ==> list[k] == curInvList[k]
      {
        list[i] := curInvList[i];
      }
      ghost var curTail := if curInvList == null then [] else curInvList[..curInvLen];
      assert list[..curInvLen] == curTail;
      AppendFlattened(list, curInvLen, o, oInvList, oInvLen);
      assert list[..curInvLen + 1 + oInvLen] == list[..curInvLen] + list[curInvLen..curInvLen + 1 + oInvLen];
    }

    /**
      LastIndexOf: the position in this delegate's flattened list (head at 0) at
      which o's flattened list is found searching from the end, or -1.
    */
    method LastIndexOf(o: MulticastDelegate) returns (idx: int)
      requires Valid() && o.Valid()
      ensures idx == InvocationLists.LastIndexOf(Flattened(), o.Flattened())
    {
      ghost var s, p := Flattened(), o.Flattened();
      var i := invocationListLength - o.invocationListLength;
      while i >= 0
        invariant i <= |s| - |p|
        invariant SearchFrom(s, p, i) == SearchFrom(s, p, |s| - |p|)
        decreases i
      {
        if i == 0 {
          // position 0 is this delegate itself: only the heads are compared
          idx := if head == o.head then 0 else -1;
          return;
        }
        var found := MatchesBehindHead(o, i);
        if found {
          return i;
        }
        i := i - 1;
      }
      return -1;
    }

    /**
      One step of LastIndexOf past the head: whether o's flattened list occurs at
      position i, comparing o's head with tail entry i - 1 and then o's tail
      entry by entry.
    */
    method MatchesBehindHead(o: MulticastDelegate, i: int) returns (found: bool)
      requires Valid() && o.Valid()
      requires 1 <= i && i + o.invocationListLength <= invocationListLength
      ensures found <==> OccursAt(Flattened(), o.Flattened(), i)
    {
      ghost var t, pt := Tail(), o.Tail();
      OccursBehindHead(head, t, o.head, pt, i);
      if invocationList[i - 1] != o.head {
        return false;
      }
      var oInvLen := o.invocationListLength;
      var j := 0;
      while j < oInvLen && invocationList[i + j] == o.invocationList[j]
        invariant 0 <= j <= oInvLen
        invariant forall k :: 0 <= k < j ==> t[i + k] == pt[k]
      {
        j := j + 1;
      }
      return j == oInvLen;
    }

    /**
      RemoveSliceFromInvocationList: the first invListLen - length entries of the
      result are invList's first invListLen entries without the length entries
      starting at idx. invList itself is returned when the removed block was its
      end and the array stays at least half full; otherwise a new array of the
      smallest capacity 4 * 2^k is filled.
    */
    static method RemoveSliceFromInvocationList(invList: array<Callback>, invListLen: nat, idx: nat, length: nat)
      returns (r: array<Callback>)
      requires idx + length <= invListLen <= invList.Length
      ensures invListLen - length <= r.Length
      ensures r[..invListLen - length] == Cut(invList[..invListLen], idx, length)
      ensures r == invList <==> CanKeepList(invList.Length, idx, invListLen - length)
      ensures r != invList ==> fresh(r) && r.Length == Capacity(InitialCapacity, invListLen - length)
    {
      var newInvLen := invListLen - length;
      var trueInvListLen := invList.Length;

      var canKeepList := CanKeepList(trueInvListLen, idx, newInvLen);
      if canKeepList {
        return invList;
      }

      trueInvListLen := GrowCapacity(InitialCapacity, newInvLen);
      var newList := new Callback[trueInvListLen];
      CopyAround(invList, newList, idx, length, newInvLen);
      return newList;
    }

    /** The copying loops of RemoveSliceFromInvocationList: src without the length entries at idx. */
    static method CopyAround(src: array<Callback>, dst: array<Callback>, idx: nat, length: nat, newLen: nat)
      requires src != dst && idx <= newLen <= dst.Length && newLen + length <= src.Length
      modifies dst
      ensures dst[..newLen] == Cut(src[..newLen + length], idx, length)
    {
      for i := 0 to idx
        invariant forall k :: 0 <= k < i ==> dst[k] == src[k]
      {
        dst[i] := src[i];
      }
      for j := idx to newLen
        invariant forall k :: 0 <= k < idx ==> dst[k] == src[k]
        invariant forall k :: idx <= k < j ==> dst[k] == src[k + length]
      {
        dst[j] := src[j + length];
      }
      assert forall k :: 0 <= k < newLen ==> dst[..newLen][k] == Cut(src[..newLen + length], idx, length)[k];
    }

    /**
      RemoveImpl: this delegate without the last occurrence of other's list, as
      RemoveLast describes it; null when nothing is left, this delegate itself
      when nothing was found. A new array is owned by the result; the array kept
      from this delegate is not.
    */
    method Remove(other: MulticastDelegate) returns (r: MulticastDelegate?)
      requires Valid() && OwnershipFlagIsBit() && other.Valid()
      ensures other == this ==> r == null
      ensures r == null <==> RemoveLast(Flattened(), other.Flattened()).None?
      ensures r != null ==> r.Valid() && r.OwnershipFlagIsBit() && RemoveLast(Flattened(), other.Flattened()) == Some(r.Flattened())
      ensures r == this <==> other != this && InvocationLists.LastIndexOf(Flattened(), other.Flattened()) == -1
      ensures r != null && r != this ==> fresh(r)
      ensures r != null && r != this ==>
                (r.ownsInvocationList == 1 <==> r.invocationList != null && r.invocationList != invocationList)
      ensures r != null && r != this && r.invocationList != null && r.invocationList != invocationList ==>
                fresh(r.invocationList) && r.invocationList.Length == Capacity(InitialCapacity, r.invocationListLength)
      ensures r != null && r != this && r.invocationList != null && invocationList != null ==>
                (r.invocationList == invocationList <==>
                   var idx := InvocationLists.LastIndexOf(Flattened(), other.Flattened());
                   CanKeepList(invocationList.Length, if idx == 0 then 0 else idx - 1, r.invocationListLength))
    {
      ghost var s, p := Flattened(), other.Flattened();
      if other == this {
        RemoveFromItself(s);
        return null;
      }

      var idx := LastIndexOf(other);
      if idx == -1 {
        return this;
      }

      var invListLen := invocationListLength;
      var newNumDelegates := invListLen - other.invocationListLength;

      if newNumDelegates == 0 {
        return null;
      }

      if newNumDelegates == 1 {
        r := KeepSurvivor(other, idx);
        return;
      }

      assert RemoveLast(s, p) == Some(Cut(s, idx, |p|));
      r := Excise(other, idx);
    }

    /**
      RemoveImpl when exactly one callback is left: the last entry when the
      match began at the head, otherwise the head itself, as SoleSurvivor
      describes it.
    */
    method KeepSurvivor(other: MulticastDelegate, idx: int) returns (r: MulticastDelegate)
      requires Valid() && other.Valid()
      requires invocationListLength == other.invocationListLength + 1
      requires idx == InvocationLists.LastIndexOf(Flattened(), other.Flattened()) && idx != -1
      ensures fresh(r) && r.Valid() && r.invocationList == null && r.ownsInvocationList == 0
      ensures r.Flattened() == [SoleSurvivor(Flattened(), other.Flattened())]
    {
      ghost var survivor := SoleSurvivor(Flattened(), other.Flattened());
      if idx == 0 {
        r := new MulticastDelegate(invocationList[invocationListLength - 1], null, 0);
      } else {
        r := WithoutInvocationList();
      }
      assert r.Flattened() == [survivor];
    }

    /**
      The general case of RemoveImpl, with at least two callbacks left: the
      match at idx is cut out of this delegate's flattened list.
    */
    method Excise(other: MulticastDelegate, idx: int) returns (r: MulticastDelegate)
      requires Valid() && other.Valid()
      requires 0 <= idx && idx + other.invocationListLength <= invocationListLength
      requires invocationListLength - other.invocationListLength >= 2
      ensures fresh(r) && r.Valid() && r.OwnershipFlagIsBit()
      ensures r.ownsInvocationList == 1 <==> r.invocationList != invocationList
      ensures r.invocationList != invocationList ==>
                fresh(r.invocationList) && r.invocationList.Length == Capacity(InitialCapacity, r.invocationListLength)
      ensures r.invocationList == invocationList <==>
                CanKeepList(invocationList.Length, if idx == 0 then 0 else idx - 1, r.invocationListLength)
      ensures r.Flattened() == Cut(Flattened(), idx, other.invocationListLength + 1)
    {
      var newInvListLen := invocationListLength - other.invocationListLength - 1;
      var newHead, newInvList := ExciseFromList(head, invocationList, invocationListLength, idx, other.invocationListLength);
      r := new MulticastDelegate(newHead, newInvList, newInvListLen);
      if newInvList != invocationList {
        r.ownsInvocationList := 1;
      }
    }

    /**
      The lists behind Excise: a match at the head takes the head and the
      first tail entries with it, so the entry after them becomes the new
      head; elsewhere the head stays and the match is cut out of the tail.
    */
    static method ExciseFromList(head: Callback, invList: array<Callback>, invListLen: nat, idx: nat, oInvLen: nat)
      returns (newHead: Callback, newInvList: array<Callback>)
      requires invListLen <= invList.Length && idx + oInvLen <= invListLen && invListLen - oInvLen >= 2
      ensures invListLen - oInvLen - 1 <= newInvList.Length
      ensures [newHead] + newInvList[..invListLen - oInvLen - 1] == Cut([head] + invList[..invListLen], idx, oInvLen + 1)
      ensures newInvList == invList <==>
                CanKeepList(invList.Length, if idx == 0 then 0 else idx - 1, invListLen - oInvLen - 1)
      ensures newInvList != invList ==>
                fresh(newInvList) && newInvList.Length == Capacity(InitialCapacity, invListLen - oInvLen - 1)
    {
      ghost var t := invList[..invListLen];
      newHead := if idx == 0 then invList[oInvLen] else head;
      var sliceIdx := if idx == 0 then 0 else idx - 1;
      newInvList := RemoveSliceFromInvocationList(invList, invListLen, sliceIdx, oInvLen + 1);
      ExciseBehindHead(head, t, oInvLen, idx, newHead, newInvList[..invListLen - oInvLen - 1]);
    }

    /** GetInvocationList: a new array holding the flattened list. */
    method GetInvocationList() returns (ret: array<Callback>)
      requires Valid()
      ensures fresh(ret) && ret[..] == Flattened()
    {
      ret := new Callback[1 + invocationListLength];
      ret[0] := head; // this delegate without its tail
      for i := 1 to invocationListLength + 1
        invariant ret[0] == head
        invariant forall k :: 1 <= k < i ==> ret[k] == invocationList[k - 1]
      {
        ret[i] := invocationList[i - 1];
      }
    }

    /**
      Equals: other is a multicast delegate with the same number of callbacks, and
      they are equal position by position.
    */
    method Equals(other: MulticastDelegate?) returns (eq: bool)
      requires Valid() && (other != null ==> other.Valid())
      ensures eq <==> other != null && Flattened() == other.Flattened()
    {
      if other == null {
        return false;
      }
      var invListLen := invocationListLength;
      if invListLen != other.invocationListLength {
        return false;
      }
      if head != other.head {
        return false;
      }
      var oInvList := other.invocationList;
      var invList := invocationList;
      for i := 0 to invListLen
        invariant Tail()[..i] == other.Tail()[..i]
      {
        if invList[i] != oInvList[i] {
          assert Flattened()[i + 1] != other.Flattened()[i + 1];
          return false;
        }
      }
      assert Tail() == Tail()[..invListLen];
      return true;
    }

    /**
      GetHashCode, given the hash of the delegate's runtime type: that hash times
      33 plus the tail length, in wrapping int arithmetic.
    */
    function GetHashCode(typeHash: int32): (h: int32)
      ensures (h as int - (typeHash as int * 33 + invocationListLength)) % 0x1_0000_0000 == 0
    {
      WrapInt32(typeHash as int * 33 + invocationListLength)
    }

    /** Target: the target of the last callback in the flattened list. */
    function Target(): (t: Option<int>)
      reads invocationList
      requires Valid()
      ensures t == Flattened()[|Flattened()| - 1].target
    {
      if invocationListLength > 0 then invocationList[invocationListLength - 1].target else head.target
    }

    /** Method: the method of the last callback in the flattened list. */
    function Method(): (m: int)
      reads invocationList
      requires Valid()
      ensures m == Flattened()[|Flattened()| - 1].methodId
    {
      if invocationListLength > 0 then invocationList[invocationListLength - 1].methodId else head.methodId
    }
  }

  /** Delegates that Equals relates have the same hash code. */
  lemma HashCodeAgreesWithEquals(a: MulticastDelegate, b: MulticastDelegate, typeHash: int32)
    requires a.Valid() && b.Valid() && a.Flattened() == b.Flattened()
    ensures a.GetHashCode(typeHash) == b.GetHashCode(typeHash)
  {
  }

  /**
    A delegate whose tail is a's tail, b's head and b's tail (what Combine
    builds) invokes a's list and then b's.
  */
  lemma CombinationFlattens(a: MulticastDelegate, b: MulticastDelegate, r: MulticastDelegate)
    requires a.Valid() && b.Valid() && r.Valid()
    requires r.head == a.head && r.Tail() == a.Tail() + [b.head] + b.Tail()
    ensures r.Flattened() == a.Flattened() + b.Flattened()
  {
    calc {
      r.Flattened();
      [a.head] + (a.Tail() + [b.head] + b.Tail());
      ([a.head] + a.Tail()) + ([b.head] + b.Tail());
    }
  }

  /** Target and Method of a combination are those of its right operand. */
  lemma CombinationTargetIsRightOperands(a: MulticastDelegate, b: MulticastDelegate, r: MulticastDelegate)
    requires a.Valid() && b.Valid() && r.Valid()
    requires r.Flattened() == a.Flattened() + b.Flattened()
    ensures r.Target() == b.Target() && r.Method() == b.Method()
  {
    var s := r.Flattened();
    assert s[|s| - 1] == b.Flattened()[|b.Flattened()| - 1];
  }

  /**
    A delegate sharing a's array with no more entries than a sees a prefix of
    a's tail, so as long as a's tail is unchanged (as Combine ensures), so is d's.
  */
  lemma SharerSeesPrefix(a: MulticastDelegate, d: MulticastDelegate)
    requires a.Valid() && d.Valid()
    requires d.invocationList == a.invocationList && d.invocationListLength <= a.invocationListLength
    ensures d.Tail() == a.Tail()[..d.invocationListLength]
  {
  }
}
