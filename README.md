# Multicast delegate invocation lists, modelled in Dafny

This project models the invocation-list machinery of dot42's `System.MulticastDelegate`
and the range check of `System.Diagnostics.DebuggerBrowsableAttribute`.

A multicast delegate has four parts:

- a head, which is the delegate itself;
- a tail of further delegates, kept in an array `InvocationList` that may be larger
  than needed and may be shared;
- `InvocationListLength`, the number of array entries that belong to this delegate;
- an ownership flag `ownsInvocationList`.

A delegate that still owns its array may append to it in place. Other delegates that
share the array only read entries below their own length, so they keep seeing the
same tail. From the outside every delegate behaves as an immutable list of callbacks.

The project has four modules:

- `Wrappers` (wrappers.dfy) holds `Option`, which stands for a reference that may be null.
- `InvocationLists` (invocation_list.dfy) states the rules on plain sequences:
  - the backward search of `LastIndexOf` (`SearchFrom`, `LastIndexOf`);
  - what `RemoveImpl` leaves behind (`RemoveLast`);
  - the capacity policy for new arrays, 4 doubled until the entries fit (`Capacity`, `IsCapacity`);
  - the test for keeping an array in `RemoveSliceFromInvocationList` (`CanKeepList`).
- `MulticastDelegates` (multicast_delegate.dfy) is the class `MulticastDelegate`:
  - the head, the array and the length are `const` fields, because C# sets them only
    when a delegate is created;
  - the ownership flag is a `var`;
  - the operations that allocate, write arrays or loop are methods, and the plain
    expressions (`Target`, `Method`, `GetHashCode`) are functions; all of them are
    proved against the sequence functions through the ghost views `Tail()` and
    `Flattened()`.
- `DebuggerBrowsable` (debugger_browsable.dfy) holds the attribute constructor. It is a
  function that returns either the exception or the attribute.

A delegate without a tail is the atom `Callback(target, methodId)`. Comparing two of them
with `==` plays the role of `EqualsWithoutInvocationList`. The constructor of the class plays
the role of `CloneWithNewInvocationList`.

The search quirk of `LastIndexOf` is reproduced as written. At position 0, only the
heads are compared, and `o`'s tail is never looked at there. So `[x, y]` minus `[x, z]`
reports a match at 0, and `RemoveImpl` returns null (`HeadOnlyComparedAtZero`). When a
single callback is removed, which is the usual case, the search is exact
(`SingleCallbackSearch`).

## Model

| member | source | states |
|---|---|---|
| InvocationLists.SearchFrom | System/MulticastDelegate.cs:281-303 | the backward search from position i returns -1 or a position at most i; a position >= 1 is a full occurrence of o; position 0 means only the heads agree; no position between the result and i (from 1 up) holds an occurrence |
| InvocationLists.LastIndexOf | System/MulticastDelegate.cs:269-306 | the reported position lies where o fits; at >= 1 it is an occurrence and no later position holds one; 0 is reported when the heads agree and no later occurrence exists, and -1 (when o fits at all) only when the heads differ |
| InvocationLists.OccursBehindHead | System/MulticastDelegate.cs:290-297 | at a position i >= 1, o occurs in [head] + tail exactly when tail entry i - 1 is o's head and tail entries i + j equal o's tail entries j |
| InvocationLists.LastIndexOfFindsEveryOccurrence | System/MulticastDelegate.cs:281-305 | every occurrence lies at or before the reported position, so the search never misses the rightmost match and never reports -1 when there is one |
| InvocationLists.HeadOnlyComparedAtZero | System/MulticastDelegate.cs:283-288 | at position 0 only heads are compared: [x, z] is reported at 0 of [x, y] although it does not occur there, and removal then yields null |
| InvocationLists.SingleCallbackSearch | System/MulticastDelegate.cs:269-306 | for a one-callback o the search reports -1 exactly when c is absent, and otherwise the last position holding c |
| InvocationLists.RemoveLast | System/MulticastDelegate.cs:114-160 | the list is kept exactly when nothing is found; null only when the match is the whole list; otherwise the result is non-empty and shorter by the length of o |
| InvocationLists.RemoveFromItself | System/MulticastDelegate.cs:116-130 | removing a list from itself leaves nothing (null) |
| InvocationLists.RemoveJustCombined | System/MulticastDelegate.cs:114-160 | after combining b onto a, the search finds b at position |a| and removing b gives back exactly a |
| InvocationLists.ExciseBehindHead | System/MulticastDelegate.cs:139-154 | cutting the match out at the head (new head tail[n]) or out of the tail (head kept, slice at idx - 1) both give the flattened list with the match removed |
| InvocationLists.RemovalExamples | System/MulticastDelegate.cs:114-160 | [x, y, z] minus [y] is [x, z]; [x, z] minus [x, z] is null; [x, x] minus [x] drops the last x |
| InvocationLists.SoleSurvivorAsWritten | System/MulticastDelegate.cs:132-137 | the callback returned when one survives, as written, is the first callback of the removed block |
| InvocationLists.SoleSurvivorAsWrittenReturnsRemoved | System/MulticastDelegate.cs:132-137 | for x != y, [x, y] minus [y] should leave x but the code returns y; [x, y] minus [x] should leave y but the code returns x |
| InvocationLists.SoleSurvivor | System/MulticastDelegate.cs:132-137 | the corrected survivor is the one callback removal leaves: RemoveLast gives exactly [survivor] |
| InvocationLists.Capacity | System/MulticastDelegate.cs:90-93 | doubling from start ends at a capacity that holds need entries, is start itself or below 2 * need, and stays of the form 4 * 2^k |
| InvocationLists.CanKeepList | System/MulticastDelegate.cs:247 | an array is kept only when the removed block ended the list (idx == newLen), and a kept array larger than 4 is still at least half full |
| MulticastDelegates.WrapInt32 | System/MulticastDelegate.cs:239 | unchecked int arithmetic: the result is congruent to the exact value modulo 2^32 |
| MulticastDelegates.GrowCapacity | System/MulticastDelegate.cs:252-254 | the doubling loop computes Capacity(start, need) |
| MulticastDelegates.MulticastDelegate.constructor | System/MulticastDelegate.cs:51-52 | CloneWithNewInvocationList: a delegate with the given head, array and length that does not own the array |
| MulticastDelegates.MulticastDelegate.GrowthStart | System/MulticastDelegate.cs:91 | the doubling starts from the array's length, or 4 without an array; either way a capacity of the form 4 * 2^k |
| MulticastDelegates.MulticastDelegate.CanAppendInPlace | System/MulticastDelegate.cs:71-76 | Combine writes in place exactly when the array exists, holds len + 1 + other's len entries, and the ownership flag is 1 (so the exchange succeeds) |
| MulticastDelegates.MulticastDelegate.CompareExchangeOwnership | System/MulticastDelegate.cs:76 | returns the previous flag and clears it exactly when it was 1 |
| MulticastDelegates.MulticastDelegate.WithoutInvocationList | System/MulticastDelegate.cs:171-176 | the result invokes only the head; it is this delegate when there is no tail, and otherwise a new delegate that does not own an array |
| MulticastDelegates.MulticastDelegate.Combine | System/MulticastDelegate.cs:54-112 | null other gives this delegate and leaves the flag and the array unchanged; otherwise a new delegate that owns its array, with length len + 1 + other's len and tail = this tail, other's head, other's tail; the tails of this and other are unchanged; the array is reused exactly when it exists, is long enough and is owned, which clears this delegate's flag; otherwise the flag is left alone, the shared array is not written, and a fresh array of Capacity(old length or 4, new length) is used |
| MulticastDelegates.MulticastDelegate.CombinedList | System/MulticastDelegate.cs:66-107 | the array behind Combine holds this tail, other's head and other's tail in its first len + 1 + other's len entries, with the same reuse, ownership and capacity rules as Combine; when a new array is allocated the shared array is left unchanged |
| MulticastDelegates.MulticastDelegate.TryAppendInPlace | System/MulticastDelegate.cs:71-86 | appends exactly when the array exists, is long enough and the flag is 1; then the flag becomes 0 and the entries hold the combined tail; otherwise neither the flag nor the array changes; the tails of this and other stay the same |
| MulticastDelegates.MulticastDelegate.AppendFlattened | System/MulticastDelegate.cs:80-84 | entries below the current length are unchanged, and the next ones hold o and then other's tail, even when other shares the same array |
| MulticastDelegates.MulticastDelegate.CopyToNewList | System/MulticastDelegate.cs:88-107 | a fresh array of capacity Capacity(old length or 4, new length) that holds the current tail, o and other's tail |
| MulticastDelegates.MulticastDelegate.LastIndexOf | System/MulticastDelegate.cs:269-306 | the loop returns InvocationLists.LastIndexOf of the two flattened lists |
| MulticastDelegates.MulticastDelegate.MatchesBehindHead | System/MulticastDelegate.cs:290-300 | comparing at position i >= 1 succeeds exactly when o's flattened list occurs at i |
| MulticastDelegates.MulticastDelegate.RemoveSliceFromInvocationList | System/MulticastDelegate.cs:242-264 | the first newLen entries are the list without the slice; the array is returned exactly when CanKeepList holds; otherwise a fresh array of Capacity(4, newLen) |
| MulticastDelegates.MulticastDelegate.CopyAround | System/MulticastDelegate.cs:258-261 | the copy loops fill the prefix before idx and the suffix after the slice |
| MulticastDelegates.MulticastDelegate.Remove | System/MulticastDelegate.cs:114-160 | null for this itself or when nothing is left; this when no match is found; otherwise the flattened result equals RemoveLast of the flattened lists (one-survivor case corrected, see Findings); a new result owns its array exactly when the array is fresh, and a fresh array has capacity Capacity(4, len); the old array is kept exactly when CanKeepList holds |
| MulticastDelegates.MulticastDelegate.KeepSurvivor | System/MulticastDelegate.cs:132-137 | with one callback left, a new tail-less delegate that invokes SoleSurvivor (the corrected choice) |
| MulticastDelegates.MulticastDelegate.Excise | System/MulticastDelegate.cs:139-159 | the new delegate's flattened list is this one's with the match cut out; it owns its array exactly when the array is fresh; a fresh array has Capacity(4, len); the old array is kept exactly when CanKeepList holds |
| MulticastDelegates.MulticastDelegate.ExciseFromList | System/MulticastDelegate.cs:143-154 | the new head followed by the new tail is [head] + tail with the match cut out, with the same reuse and capacity rules |
| MulticastDelegates.MulticastDelegate.GetInvocationList | System/MulticastDelegate.cs:162-169 | a fresh array holding the flattened list: the head, then the tail in order |
| MulticastDelegates.MulticastDelegate.Equals | System/MulticastDelegate.cs:210-234 | true exactly when other is non-null and both flattened lists are equal (same length, same heads, same tail entries) |
| MulticastDelegates.MulticastDelegate.GetHashCode | System/MulticastDelegate.cs:236-240 | typeHash * 33 + tail length, wrapped to int |
| MulticastDelegates.MulticastDelegate.Target | System/MulticastDelegate.cs:181-197 | the target of the last callback of the flattened list |
| MulticastDelegates.MulticastDelegate.Method | System/MulticastDelegate.cs:199-208 | the method of the last callback of the flattened list |
| MulticastDelegates.HashCodeAgreesWithEquals | System/MulticastDelegate.cs:210-240 | delegates that Equals relates have equal hash codes |
| MulticastDelegates.CombinationFlattens | System/MulticastDelegate.cs:54-112 | a result built as Combine builds it invokes this delegate's list and then other's |
| MulticastDelegates.CombinationTargetIsRightOperands | System/MulticastDelegate.cs:181-208 | Target and Method of a combination are those of its right operand |
| MulticastDelegates.SharerSeesPrefix | System/MulticastDelegate.cs:80-84 | a delegate sharing the array with no more entries sees a prefix of the owner's tail, so it is unaffected while that tail is unchanged |
| DebuggerBrowsable.New | System/Diagnostics/DebuggerBrowsableAttribute.cs:31-38 | fails with ArgumentOutOfRangeException("state") exactly when state is below Never or above RootHidden; otherwise State returns the given state |
| DebuggerBrowsable.DebuggerBrowsableAttribute.State | System/Diagnostics/DebuggerBrowsableAttribute.cs:40-43 | the getter returns the stored state; the attribute is an immutable value, so the state never changes after construction (New's contract ties it to the constructor argument) |
| DebuggerBrowsable.BuiltStateInRange | System/Diagnostics/DebuggerBrowsableAttribute.cs:33-43 | every attribute that can be built reports a state between Never and RootHidden |
| DebuggerBrowsable.RangeCheckIsNumeric | System/Diagnostics/DebuggerBrowsableAttribute.cs:33-35 | the check is numeric: the unnamed value 1 and all three named states are accepted; -1 and 4 are refused |

## Left out

- Thread races on `ownsInvocationList` are not modelled. `Interlocked.CompareExchange` is one sequential test-and-set (`CompareExchangeOwnership`).
- MulticastDelegates.MulticastDelegate.Combine: requires `OwnerHasLongestView(other)`. This is the ownership protocol: an owner is never shorter than a delegate that shares its array. The model assumes the protocol for the two operands and does not prove it over the whole heap.
- MulticastDelegates.MulticastDelegate.Combine: the contract states the result's head and tail. `CombinationFlattens` turns that into the flattened-list statement.
- Tail entries are `Callback` values, not delegate objects. Object identity is not modelled in three places:
  - `KeepSurvivor`, for a match at 0, builds a new tail-less delegate where the corrected code would return the existing tail object `InvocationList[len - 1]`. For a match at 1 it returns `WithoutInvocationList()`, a new tail-less clone, just as the corrected code would.
  - `GetInvocationList` stores the head value where the source stores `WithoutInvocationList()`.
  - `Combine` stores the value `other.head` where the source stores `o.WithoutInvocationList()`, which is `o` itself when it has no tail and a new tail-less clone otherwise.
- Reflection in `Target` (`GetInstanceField`, `GetValue`) and `Method` (`GetMethodInfo`) is not modelled. Each getter returns a field of the last callback: `target` (None for a static method) or `methodId`.
- `GetType().GetHashCode()` is the runtime's type hash. It is passed in as the parameter `typeHash`.
- `EqualsWithoutInvocationList` and `CloneWithNewInvocationList` are abstract in the source. They become equality of `Callback` values and the class constructor.
- `Equals` takes an optional delegate. An argument of another type, which the `as` cast turns into null, is modelled as null. The per-entry comparison is `==` on callbacks.
- Lengths and capacities are unbounded integers. An `int` overflow of `len *= 2` or of `curInvLen + 1 + oInvLen` is not modelled; only the hash code wraps.
- Array entries beyond a delegate's length hold leftover callbacks rather than null. No operation reads them.
- MulticastDelegates.MulticastDelegate.constructor: sets the ownership flag to 0. `CloneWithNewInvocationList` is abstract, so this is an assumption about every implementation of it. The ownership protocol depends on it: when `Remove` keeps the old array, its result must not become a second owner of that array.
- The casts `(MulticastDelegate) other` in `CombineImpl` and `RemoveImpl` throw `InvalidCastException` for a delegate that is not a multicast delegate. The parameters are typed `MulticastDelegate`, so that exception is not modelled.
- `Remove` takes a non-null delegate. `Delegate.Remove`, which screens out null arguments before calling `RemoveImpl`, is not part of this model.
- `DebuggerBrowsableState` is not part of this model. Its values Never = 0, Collapsed = 2 and RootHidden = 3 follow the .NET class library. The attributes on the class (`ComVisible`, `AttributeUsage`, `Ignore`) are metadata and are left out.

## Findings

| source | as written | input that shows it | evidently intended | confidence | as-written member | corrected member |
|---|---|---|---|---|---|---|
| System/MulticastDelegate.cs:132-137 | when one callback survives, it returns `WithoutInvocationList()` for a match at 0 and `InvocationList[idx - 1]` otherwise; both are the first callback of the removed block | `[x, y]` minus `[y]` (match at 1) returns y; `[x, y]` minus `[x]` (match at 0) returns x | return the callback that remains: the last tail entry for a match at 0, the head otherwise | not executed | InvocationLists.SoleSurvivorAsWritten, shown by InvocationLists.SoleSurvivorAsWrittenReturnsRemoved | InvocationLists.SoleSurvivor, used by MulticastDelegates.MulticastDelegate.KeepSurvivor |
