/**
  The invocation list of a multicast delegate seen as a value: the sequence of
  callbacks it calls, head first. This module states, on sequences, the rules the
  class MulticastDelegate follows on its arrays: how LastIndexOf searches for a
  sub-list, what Remove leaves behind, and how large a freshly allocated
  invocation-list array is.
*/
module InvocationLists {
  import opened Wrappers

  /**
    A delegate that has no invocation list of its own: the identity of its target
    instance (None for a static method) and of the method it calls. Two of them are
    equal exactly when both parts match, which is what EqualsWithoutInvocationList
    decides.
  */
  datatype Callback = Callback(target: Option<int>, methodId: int)

  /** The capacity the invocation-list array starts with. */
  const InitialCapacity := 4

  // ---------------------------------------------------------------------------
  // Searching (MulticastDelegate.LastIndexOf)
  // ---------------------------------------------------------------------------

  /** o occurs in s as a contiguous block starting at position i. */
  predicate OccursAt(s: seq<Callback>, o: seq<Callback>, i: int)
  {
    0 <= i && i + |o| <= |s| && s[i..i + |o|] == o
  }

  /**
    The backward search of LastIndexOf, resumed at position i of the flattened
    list s. At a position i >= 1 the whole of o must match; at position 0 only the
    first callbacks are compared, and the search ends there either way.
  */
  function SearchFrom(s: seq<Callback>, o: seq<Callback>, i: int): (r: int)
    requires 1 <= |o| && i <= |s| - |o|
    ensures r == -1 || 0 <= r <= i
    ensures r >= 1 ==> OccursAt(s, o, r)
    ensures r == 0 ==> s[0] == o[0]
    ensures r == -1 && 0 <= i ==> s[0] != o[0]
    ensures forall k :: r < k <= i && 1 <= k ==> !OccursAt(s, o, k)
    decreases i
  {
    if i < 0 then -1
    else if i == 0 then (if s[0] == o[0] then 0 else -1)
    else if OccursAt(s, o, i) then i
    else SearchFrom(s, o, i - 1)
  }

  /**
    The position in s (head at 0) at which LastIndexOf reports o, or -1. The search
    starts at the last position where o fits.
  */
  function LastIndexOf(s: seq<Callback>, o: seq<Callback>): (r: int)
    requires 1 <= |s| && 1 <= |o|
    ensures r == -1 || 0 <= r <= |s| - |o|
    ensures r >= 1 ==> OccursAt(s, o, r)
    ensures r == 0 ==> s[0] == o[0]
    ensures r == -1 && |o| <= |s| ==> s[0] != o[0]
    ensures forall k :: r < k && 1 <= k ==> !OccursAt(s, o, k)
  {
    SearchFrom(s, o, |s| - |o|)
  }

  /**
    Seen on a delegate's head h and tail t: a block [ph] + pt occurs at a position
    i >= 1 exactly when tail entry i - 1 is ph and the following entries are pt.
  */
  lemma OccursBehindHead(h: Callback, t: seq<Callback>, ph: Callback, pt: seq<Callback>, i: int)
    requires 1 <= i && i + |pt| <= |t|
    ensures OccursAt([h] + t, [ph] + pt, i) <==>
              t[i - 1] == ph && forall k :: 0 <= k < |pt| ==> t[i + k] == pt[k]
  {
    var s, o := [h] + t, [ph] + pt;
    if t[i - 1] == ph && forall k :: 0 <= k < |pt| ==> t[i + k] == pt[k] {
      assert forall k :: 0 <= k < |o| ==> s[i..i + |o|][k] == o[k] by {
        forall k | 0 <= k < |o| ensures s[i..i + |o|][k] == o[k] {
          if k > 0 {
            assert s[i + k] == t[i + k - 1];
          }
        }
      }
    }
    if OccursAt(s, o, i) {
      forall k | 0 <= k < |pt| ensures t[i + k] == pt[k] {
        assert s[i..i + |o|][k + 1] == o[k + 1];
      }
      assert s[i..i + |o|][0] == o[0];
    }
  }

  /**
    LastIndexOf never misses an occurrence: every position at which o occurs is at
    or before the reported one, so a reported position >= 1 is the rightmost
    occurrence.
  */
  lemma LastIndexOfFindsEveryOccurrence(s: seq<Callback>, o: seq<Callback>, k: int)
    requires 1 <= |s| && 1 <= |o|
    requires OccursAt(s, o, k)
    ensures 0 <= k <= LastIndexOf(s, o)
  {
    if k == 0 {
      assert s[0..|o|][0] == s[0];
    }
  }

  /**
    At position 0 LastIndexOf compares only the heads: with x, y, z and y != z it
    reports [x, z] at position 0 of [x, y], although [x, z] does not occur there,
    and Remove then drops the whole list.
  */
  lemma HeadOnlyComparedAtZero(x: Callback, y: Callback, z: Callback)
    requires y != z
    ensures !OccursAt([x, y], [x, z], 0)
    ensures LastIndexOf([x, y], [x, z]) == 0
    ensures RemoveLast([x, y], [x, z]) == None
  {
    assert [x, y][0..2] == [x, y];
  }

  /**
    Removing a single callback, the usual case, is exact despite the head-only
    comparison: c is reported at its last occurrence, or not at all when it does
    not occur.
  */
  lemma {:induction false} SingleCallbackSearch(s: seq<Callback>, c: Callback)
    requires 1 <= |s|
    ensures LastIndexOf(s, [c]) == -1 <==> c !in s
    ensures LastIndexOf(s, [c]) != -1 ==>
              s[LastIndexOf(s, [c])] == c && c !in s[LastIndexOf(s, [c]) + 1..]
  {
    var r := LastIndexOf(s, [c]);
    forall k | 0 <= k < |s|
      ensures OccursAt(s, [c], k) <==> s[k] == c
    {
      assert s[k..k + 1] == [s[k]];
    }
    if c in s {
      var k :| 0 <= k < |s| && s[k] == c;
      LastIndexOfFindsEveryOccurrence(s, [c], k);
    }
    if r != -1 {
      if r == 0 {
        assert s[0] == c;
      }
      forall k | r + 1 <= k < |s|
        ensures s[k] != c
      {
        assert !OccursAt(s, [c], k);
      }
    }
  }

  // ---------------------------------------------------------------------------
  // Removing (MulticastDelegate.RemoveImpl), on flattened lists
  // ---------------------------------------------------------------------------

  /**
    What Remove leaves of s when asked to remove o: s itself when LastIndexOf
    finds nothing, None (a null delegate) when the block found is all of s, and
    otherwise s with the |o| callbacks starting at the reported position cut out.
  */
  function RemoveLast(s: seq<Callback>, o: seq<Callback>): (r: Option<seq<Callback>>)
    requires 1 <= |s| && 1 <= |o|
    ensures r == Some(s) <==> LastIndexOf(s, o) == -1
    ensures r.None? ==> |s| == |o|
    ensures r.Some? ==> 1 <= |r.value|
    ensures r.Some? && r != Some(s) ==> |r.value| == |s| - |o|
  {
    var idx := LastIndexOf(s, o);
    if idx == -1 then Some(s)
    else if |s| == |o| then None
    else Some(Cut(s, idx, |o|))
  }

  /** s without the n entries starting at i. */
  function Cut(s: seq<Callback>, i: nat, n: nat): (r: seq<Callback>)
    requires i + n <= |s|
    ensures |r| == |s| - n
  {
    s[..i] + s[i + n..]
  }

  /** Removing a delegate from itself leaves nothing. */
  lemma RemoveFromItself(s: seq<Callback>)
    requires 1 <= |s|
    ensures RemoveLast(s, s) == None
  {
  }

  /**
    Removing what was just combined onto a list gives the list back, whether or
    not b also occurs earlier in a: the search finds the copy at the end first.
  */
  lemma RemoveJustCombined(a: seq<Callback>, b: seq<Callback>)
    requires 1 <= |a| && 1 <= |b|
    ensures LastIndexOf(a + b, b) == |a|
    ensures RemoveLast(a + b, b) == Some(a)
  {
    var s := a + b;
    assert s[|a|..|a| + |b|] == b;
    assert OccursAt(s, b, |a|);
    assert s[..|a|] + s[|a| + |b|..] == a;
  }

  /**
    Cutting n + 1 callbacks at idx out of the list [h] + t, stated on the tail:
    at the head the new head is t[n] and the rest of the tail follows; elsewhere
    h stays and the tail loses the n + 1 entries starting at idx - 1.
  */
  lemma ExciseBehindHead(h: Callback, t: seq<Callback>, n: nat, idx: nat, rh: Callback, rt: seq<Callback>)
    requires idx + n < |t| || (idx > 0 && idx + n <= |t|)
    requires rh == if idx == 0 then t[n] else h
    requires rt == Cut(t, if idx == 0 then 0 else idx - 1, n + 1)
    ensures [rh] + rt == Cut([h] + t, idx, n + 1)
  {
    var s := [h] + t;
    if idx == 0 {
      assert s[idx + n + 1..] == t[n..];
    } else {
      assert s[..idx] == [h] + t[..idx - 1];
      assert s[idx + n + 1..] == t[idx + n..];
    }
  }

  /** The worked examples of removal, for three distinct callbacks x, y, z. */
  lemma RemovalExamples(x: Callback, y: Callback, z: Callback)
    requires x != y && y != z && x != z
    ensures RemoveLast([x, y, z], [y]) == Some([x, z])
    ensures RemoveLast([x, z], [x, z]) == None
    ensures RemoveLast([x, x], [x]) == Some([x])
  {
    SingleCallbackSearch([x, y, z], y);
    assert LastIndexOf([x, y, z], [y]) == 1;
    assert [x, y, z][..1] + [x, y, z][2..] == [x, z];
    SingleCallbackSearch([x, x], x);
    assert LastIndexOf([x, x], [x]) == 1;
    assert [x, x][..1] + [x, x][2..] == [x];
  }

  /**
    The callback Remove returns when exactly one survives, as the source selects
    it: the head when the match was reported at 0, and otherwise tail entry
    idx - 1, which is s[idx]. Either way it is the first callback of the block
    that was removed.
  */
  function SoleSurvivorAsWritten(s: seq<Callback>, o: seq<Callback>): (c: Callback)
    requires 1 <= |o| && |s| == |o| + 1 && LastIndexOf(s, o) != -1
    ensures c == s[LastIndexOf(s, o)]
  {
    var idx := LastIndexOf(s, o);
    if idx == 0 then s[0] else s[idx - 1 + 1]
  }

  /**
    The selection as written returns the callback that was removed: [x, y] minus
    [y] leaves x, but the source returns y; [x, y] minus [x] leaves y, but the
    source returns x.
  */
  lemma SoleSurvivorAsWrittenReturnsRemoved(x: Callback, y: Callback)
    requires x != y
    ensures RemoveLast([x, y], [y]) == Some([x]) && SoleSurvivorAsWritten([x, y], [y]) == y
    ensures RemoveLast([x, y], [x]) == Some([y]) && SoleSurvivorAsWritten([x, y], [x]) == x
  {
    SingleCallbackSearch([x, y], y);
    assert LastIndexOf([x, y], [y]) == 1;
    assert [x, y][..1] + [x, y][2..] == [x];
    SingleCallbackSearch([x, y], x);
    assert LastIndexOf([x, y], [x]) == 0;
    assert [x, y][..0] + [x, y][1..] == [y];
  }

  /**
    The callback that actually remains when one survives: the last one when the
    removed block starts at the head, otherwise the head.
  */
  function SoleSurvivor(s: seq<Callback>, o: seq<Callback>): (c: Callback)
    requires 1 <= |o| && |s| == |o| + 1 && LastIndexOf(s, o) != -1
    ensures RemoveLast(s, o) == Some([c])
  {
    var idx := LastIndexOf(s, o);
    assert idx == 0 ==> Cut(s, idx, |o|) == [s[|s| - 1]];
    assert idx == 1 ==> Cut(s, idx, |o|) == [s[0]];
    if idx == 0 then s[|s| - 1] else s[0]
  }

  // ---------------------------------------------------------------------------
  // Capacity policy (CombineImpl, RemoveSliceFromInvocationList)
  // ---------------------------------------------------------------------------

  /** n is 4 times a power of two. */
  predicate IsCapacity(n: int)
    decreases n
  {
    n == InitialCapacity || (n > InitialCapacity && n % 2 == 0 && IsCapacity(n / 2))
  }

  /**
    The capacity reached by doubling start until it holds need entries: the
    smallest start * 2^k that is at least need.
  */
  function Capacity(start: int, need: int): (c: int)
    requires 1 <= start
    ensures start <= c && need <= c
    ensures c == start || c < 2 * need
    ensures IsCapacity(start) ==> IsCapacity(c)
    decreases need - start
  {
    if need <= start then start else Capacity(2 * start, need)
  }

  /**
    The canKeepList test of RemoveSliceFromInvocationList: an array of the given
    capacity is kept when the removed block was at its end (so the survivors are
    exactly its first newLen entries) and the array is small or still at least
    half full.
  */
  predicate CanKeepList(capacity: int, idx: int, newLen: int): (keep: bool)
    ensures keep ==> idx == newLen
    ensures keep && InitialCapacity < capacity ==> capacity <= 2 * newLen + 1
  {
    newLen == idx && (capacity <= InitialCapacity || capacity / 2 <= newLen)
  }
}
