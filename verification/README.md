# Sorted linked list — a Dafny model

This project models `LinkedList`, a PHP self-ordering singly-linked list. The list is built with
a fixed order, `OrderTypes::ASC` or `OrderTypes::DESC`. It holds either only integers or only
strings: the kind of the first value added is locked for the list's lifetime. Values are
inserted at their sorted place, found with a walk that stops early, and unlinked by value. The
model also covers reading the list: its first and last values, the array of its values, its
counter and iteration.

Layout, one module per file:

- `wrappers.dfy` (`Wrappers`): `Option` for PHP's nullable fields and `Result` for operations that can throw.
- `order_types.dfy` (`OrderTypes`): the int-backed `OrderTypes` enum.
- `values.dfy` (`Values`): the two value kinds and the spaceship comparison `<=>` (`verifyMoreOrLess`).
- `ordering.dfy` (`Ordering`): comparisons taken in a list's direction, and what a sorted chain is.
- `chains.dfy` (`Chains`): reference definitions on plain sequences. They say where a value is spliced in, where a removal lands, and how splicing changes the contents.
- `nodes.dfy` (`Nodes`): the `Node` cell, and the sequence of values a chain of cells spells out.
- `linked_list.dfy` (`LinkedList`): the list object and its operations, each over the immutable cell chain. The private comparison `verifyMoreOrLess` lives in `values.dfy` as `Values.Compare`.
- `list_properties.dfy` (`ListProperties`): properties that relate several calls, or that relate an operation to its reference.
- `demo.dfy` (`Demo`): the call sequences of the demonstration driver and of the type test, on concrete lists.

How the model maps the code:

- **State.** The list object is `ListState(order, lock, head, count)`. `head` is an optional
  `Node`, and a `Node` holds a value and an optional successor. Cells are immutable. The
  in-place splice `node.next = current.next; current.next = node` is therefore modelled by
  rebuilding the cells from the head up to `current`. `Elements(s)` is the chain read head to
  tail.
- **Invariant.** `add`, `removeByValue`, `contains` and `count` require `Valid`, and `add` and
  `removeByValue` re-establish it. `Valid` says:
  - the counter equals the chain length;
  - a non-empty chain implies a lock;
  - every element has the locked kind;
  - the chain is sorted in the list's order.
- **Comparisons.** Each `<=>` test in the source becomes one of two predicates:
  - `Beyond(o, a, b)`: `a <=> b` is 1 under ASC and -1 under DESC;
  - `Before(o, a, b)`: `a <=> b` is -1 under ASC and 1 under DESC.

  `addAsc`/`addDesc`, `removeAsc`/`removeDesc` and `containsAsc`/`containsDesc` are each
  modelled by one walk parameterised by the order. In the source each pair differs only in
  which of these tests it uses.
- **Errors.** Exceptions become `Err` results. `MixedValueTypeException` is
  `TypeMismatch(rejected, locked)`, and the generic "List is empty" exception is `EmptyList`.
- **Return values.** `contains` and `removeByValue` return the boolean together with the
  resulting list object.

## Behaviour kept as written

- **Empty-list exemption.** On an empty list, `contains` and `removeByValue` return false
  before the type guard runs. A value of the other kind therefore raises nothing and locks
  nothing.
- **Removal of an absent value.** `removeAsc`/`removeDesc` never check that the element they
  unlink equals the target. A caller would expect removing a missing value to return false, but
  the code can unlink another element. The model follows the code:
  - `RemoveAbsentUnlinksFirstNotAhead` states the general rule;
  - `RemoveAbsentFiveUnlinksSeven` shows that on `[1, 2, 7, 10]`, removing 5 unlinks 7;
  - `RemoveAbsentZeroUnlinksTwo` shows that removing 0 unlinks 2.
- **Tie-break.** A stable insertion would keep the earlier equal value first. The code inserts a new value before the first element it does not lie past, so the NEW value
  lands before the equal ones (`AddLandsBeforeEquals`). In the model, values that compare equal
  are identical, so the tie-break is invisible there. In PHP it is not: `<=>` returns 0 for
  distinct numeric strings such as "1" and "01", so adding "01" then "1" to an ascending list
  gives `["1", "01"]`. That numeric-string comparison is not modelled (see the numeric-string
  line under "Left out").
- **Lock survives emptying.** The lock is never reset, even when removals empty the list
  (`LockSurvivesEmptying`).

## Model

| member | source | states |
|---|---|---|
| OrderTypes.BackingValue | SortedLinkedList/src/Enum/OrderTypes.php:7-11 | each order's backing value is 1 or 2, and mapping it back yields the same order, so the two cases have distinct values |
| OrderTypes.FromBackingValue | SortedLinkedList/src/Enum/OrderTypes.php:9-10 | no integer other than 1 or 2 names an order |
| OrderTypes.FromBackingValueRoundTrip | SortedLinkedList/src/Enum/OrderTypes.php:7-11 | an integer that names an order is that order's backing value |
| Values.LexCompare | SortedLinkedList/src/LinkedList.php:215-218 | string comparison yields -1, 0 or 1, and 0 exactly when the strings are equal; its order is stated by `Values.LexCompareIsLexicographic` |
| Values.LexLessTail | SortedLinkedList/src/LinkedList.php:215-218 | two strings with the same first character are in byte order exactly when their remainders are |
| Values.LexLessHeads | SortedLinkedList/src/LinkedList.php:215-218 | a string that precedes another in byte order starts with a character no larger than the other's first |
| Values.LexCompareIsLexicographic | SortedLinkedList/src/LinkedList.php:215-218 | string comparison is negative exactly when the left string is a proper prefix of the right one, or the first differing character is smaller on the left |
| Values.LexCompareAntisymmetric | SortedLinkedList/src/LinkedList.php:215-218 | swapping two strings negates their comparison |
| Values.LexCompareTransitive | SortedLinkedList/src/LinkedList.php:215-218 | "at most" on strings is transitive |
| Values.Compare | SortedLinkedList/src/LinkedList.php:215-218 | `<=>` on two values of one kind yields -1, 0 or 1; it yields 0 exactly on equal values; on integers its sign is the numeric order; on strings see `Values.CompareStringsInByteOrder` |
| Values.CompareStringsInByteOrder | SortedLinkedList/src/LinkedList.php:215-218 | on strings, `<=>` is negative exactly when the left string precedes in byte order (proper prefix first, else first differing character), and positive exactly when the right one precedes |
| Values.CompareAntisymmetric | SortedLinkedList/src/LinkedList.php:215-218 | swapping the operands of `<=>` negates the result |
| Values.CompareTransitive | SortedLinkedList/src/LinkedList.php:215-218 | "at most" under `<=>` is transitive |
| Ordering.BeforeIsConverseOfBeyond | SortedLinkedList/src/LinkedList.php:264 | the removal walk's test (successor ahead of the target) is the insertion walk's test with the operands swapped |
| Ordering.NotBeyondTransitive | SortedLinkedList/src/LinkedList.php:222 | in both orders, "not past" is transitive |
| Ordering.PastLastIsPastAll | SortedLinkedList/src/LinkedList.php:264-266 | in a sorted chain, a target past the last element has every element strictly ahead of it |
| Chains.InsertAt | SortedLinkedList/src/LinkedList.php:235-236 | splicing in a cell adds exactly one occurrence of its value and shifts the later elements by one |
| Chains.RemoveAt | SortedLinkedList/src/LinkedList.php:272 | unlinking a cell removes exactly one occurrence of its value and keeps the others in order |
| Chains.FirstNotExceeded | SortedLinkedList/src/LinkedList.php:231-233 | the insertion position: the new value lies past every element before it, and not past the element at it |
| Chains.FirstNotBefore | SortedLinkedList/src/LinkedList.php:264-266 | the removal walk's stop: every element before it is strictly ahead of the target, and the one at it is not |
| Chains.InsertAtKeepsSorted | SortedLinkedList/src/LinkedList.php:220-258 | inserting before the first element the value does not exceed keeps a sorted chain sorted and of one kind |
| Chains.RemoveAtKeepsSorted | SortedLinkedList/src/LinkedList.php:260-292 | unlinking any element keeps a sorted chain sorted and of one kind |
| Chains.FirstNotExceededCons | SortedLinkedList/src/LinkedList.php:231-233 | when the new value lies past the head, its insertion position is one past its position in the tail |
| Chains.FirstNotBeforeCons | SortedLinkedList/src/LinkedList.php:264-266 | when the head is strictly ahead of the target, the walk's stop is one past its stop in the tail |
| Chains.RemoveBehindHead | SortedLinkedList/src/LinkedList.php:272 | unlinking one past the head keeps the head and unlinks within the tail |
| Chains.FirstNotBeforeFindsFirstOccurrence | SortedLinkedList/src/LinkedList.php:264-266 | in a sorted chain holding the target, the removal walk stops exactly at the target's first occurrence |
| Nodes.NewNode | SortedLinkedList/src/Node.php:10-13 | a fresh cell holds exactly the given value and has no successor |
| Nodes.Link | SortedLinkedList/src/Node.php:7-8 | every finite sequence of values is spelled out by some chain of cells ending in null |
| Nodes.LinkChain | SortedLinkedList/src/Node.php:7-8 | a chain of cells is determined by the values it spells out |
| LinkedList.New | SortedLinkedList/src/LinkedList.php:17-25 | a new list is empty, unlocked, has counter 0, keeps the given order and satisfies the invariant |
| LinkedList.AssertType | SortedLinkedList/src/LinkedList.php:196-213 | the guard fails exactly when a lock of the other kind exists, naming (rejected, locked); otherwise it sets the lock to the value's kind |
| LinkedList.InsertAfter | SortedLinkedList/src/LinkedList.php:230-237 | the walk from a cell splices the value into the cell's tail at the tail's insertion position |
| LinkedList.AddOrdered | SortedLinkedList/src/LinkedList.php:220-258 | for both orders, the value lands before the first element it does not lie past, prepended when that is the head |
| LinkedList.Add | SortedLinkedList/src/LinkedList.php:33-52 | `add` fails exactly on a kind mismatch, naming both kinds; on success it keeps the invariant and the order, locks the value's kind, adds one to the counter and splices the value in at its insertion position |
| LinkedList.ContainsFrom | SortedLinkedList/src/LinkedList.php:108-138 | a true answer means the value occurs; on a sorted chain, the early exit is sound, so the answer is true exactly when the value occurs |
| LinkedList.Contains | SortedLinkedList/src/LinkedList.php:90-106 | an empty list answers false with no type check; otherwise it fails exactly on a kind mismatch; on success it answers membership and changes nothing |
| LinkedList.UnlinkAfter | SortedLinkedList/src/LinkedList.php:260-292 | the removal walk unlinks the first tail element not strictly ahead of the target, if any, reporting whether it did |
| LinkedList.RemovalIndex | SortedLinkedList/src/LinkedList.php:68-80 | the element `removeByValue` targets lies within the chain or is "none": the head when it matches, else the walk's stop one past the head |
| LinkedList.UnlinkFromHead | SortedLinkedList/src/LinkedList.php:68-80 | a matching head is unlinked; otherwise the walk decides; true exactly when something is unlinked |
| LinkedList.RemoveByValue | SortedLinkedList/src/LinkedList.php:60-82 | see the list after this table |
| LinkedList.First | SortedLinkedList/src/LinkedList.php:140-147 | fails with EmptyList exactly on an empty list, else yields the head value |
| LinkedList.LastFrom | SortedLinkedList/src/LinkedList.php:155-159 | following `next` to null reaches the final value of the chain |
| LinkedList.Last | SortedLinkedList/src/LinkedList.php:149-160 | fails with EmptyList exactly on an empty list, else yields the final value |
| LinkedList.Count | SortedLinkedList/src/LinkedList.php:175-178 | the maintained counter equals the chain length |
| LinkedList.ToArray | SortedLinkedList/src/LinkedList.php:162-173 | walking the cells from the head yields the list's values head to tail |
| LinkedList.Iterate | SortedLinkedList/src/LinkedList.php:180-183 | a fresh iteration starts at a cell whose chain is the list's values head to tail |
| LinkedList.Pull | SortedLinkedList/src/LinkedList.php:184-187 | a pull finishes exactly at null; otherwise it yields the current cell's value and steps to its successor, so the yielded value followed by what remains is the chain from the current cell |
| LinkedList.Drain | index.php:23-25 | pulling a cursor until it finishes yields the chain from its cell onwards |
| ListProperties.MemberHasLockedKind | SortedLinkedList/src/LinkedList.php:205-212 | every value a valid list holds has the locked kind |
| ListProperties.ContainsFindsMember | SortedLinkedList/src/LinkedList.php:90-138 | `contains` of a held value is true and changes nothing |
| ListProperties.ContainsMissesNonMember | SortedLinkedList/src/LinkedList.php:108-138 | `contains` of an absent value of the locked kind is false and changes nothing |
| ListProperties.AddLandsBeforeEquals | SortedLinkedList/src/LinkedList.php:222-233 | after `add`, every element ahead of the new value is strictly ahead of it, so it becomes the first of its equals |
| ListProperties.AddOfLockedKindSucceeds | SortedLinkedList/src/LinkedList.php:205-212 | `add` of the locked kind, or any `add` on an unlocked list, succeeds |
| ListProperties.AddContents | SortedLinkedList/src/LinkedList.php:33-52 | a successful `add` holds the old contents plus exactly one occurrence of the value |
| ListProperties.AddAll | index.php:14-19 | a sequence of `add` calls keeps the invariant and the order, and raises the counter by the number of values |
| ListProperties.AddAllOfOneKindSucceeds | SortedLinkedList/src/LinkedList.php:196-213 | adding values of one kind to a list that is unlocked or locked to that kind never fails |
| ListProperties.AddAllContents | SortedLinkedList/src/LinkedList.php:33-52 | after a sequence of `add` calls, the list holds the old contents plus exactly those values, sorted in the list's order |
| ListProperties.RemovalIndexOfMember | SortedLinkedList/src/LinkedList.php:68-80 | on a sorted chain holding the value, the element `removeByValue` targets is its first occurrence |
| ListProperties.RemovePresentUnlinksFirstOccurrence | SortedLinkedList/src/LinkedList.php:60-82 | removing a held value returns true, unlinks exactly its first occurrence and keeps the rest in order, with the counter one less |
| ListProperties.RemovePastLastIsNoOp | SortedLinkedList/src/LinkedList.php:264-270 | removing a target past the last element returns false and changes nothing |
| ListProperties.RemoveFromSingletonMismatchIsNoOp | SortedLinkedList/src/LinkedList.php:268-270 | removing from a one-element list whose element differs returns false and changes nothing |
| ListProperties.RemoveAbsentUnlinksFirstNotAhead | SortedLinkedList/src/LinkedList.php:264-273 | removing an absent value unlinks the first non-head element not strictly ahead of it, which differs from the target; if there is none, it returns false and changes nothing |
| ListProperties.LockSurvivesEmptying | SortedLinkedList/src/LinkedList.php:205-212 | after a removal empties the list, an `add` of the other kind still fails with the original lock |
| ListProperties.IterationYieldsElements | SortedLinkedList/src/LinkedList.php:180-188 | a full iteration yields the list's values head to tail, as many as the counter says |
| Demo.AscendingIntegerBuild | index.php:14-21 | adding 10, 2, 7, 1 to an ascending list gives [1, 2, 7, 10] |
| Demo.AscendingIntegerQueries | index.php:27-32 | on that list `contains(7)` is true and `removeByValue(23)` leaves it unchanged |
| Demo.RemoveAbsentFiveUnlinksSeven | SortedLinkedList/src/LinkedList.php:264-273 | on [1, 2, 7, 10], removing the absent 5 returns true and leaves [1, 2, 10] |
| Demo.RemoveAbsentZeroUnlinksTwo | SortedLinkedList/src/LinkedList.php:264-273 | on [1, 2, 7, 10], removing the absent 0 returns true and leaves [1, 7, 10] |
| Demo.DescendingTextDemo | index.php:34-42 | adding "A", "B", "C" to a descending list gives first "C", last "A" and ["C", "B", "A"] |
| Demo.MixedTypeDemo | SortedLinkedList/tests/TypeTest.php:16-19 | adding 2, then "test", fails with a mismatch naming (string, integer) |

What `LinkedList.RemoveByValue` states:

- An empty list answers false, with no type check and no change.
- Otherwise the call fails exactly on a kind mismatch.
- On success the list keeps the invariant, the order and the lock.
- A false answer changes nothing. A true answer lowers the counter by one.
- The element unlinked is the matching head, or else the first non-head element not strictly
  ahead of the target. The answer is true exactly when such an element exists.

## Left out

- `var_dump($type)` in `assertType` (LinkedList.php:199): console output with no effect on the list.
- `NotAllowedTypeException` (LinkedList.php:201-203): `Value` has exactly the two allowed kinds, so the branch cannot be reached. Its class file is not part of this model.
- Exception message texts: only the error kinds and their payloads are modelled.
- PHP 8 numeric-string comparison: `<=>` compares two numeric strings numerically (so "10" > "9", and "1" <=> "01" is 0, which makes the tie-break observable). The model compares all strings lexicographically by character, which is byte order on UTF-8 text. PHP strings are byte strings, while the model's `string` is a sequence of Unicode scalar values, so a PHP string that is not valid UTF-8 (such as `"\xff"`) has no counterpart in the model.
- Object identity and aliasing of cells: the chain is an immutable value, and an in-place splice is modelled by rebuilding the prefix before the splice point.
- Generator laziness in `getIterator`: iteration is a cursor advanced one pull at a time (`Pull`, `Drain`), without suspension.
- Printing in `index.php`: its call sequences appear only as the `Demo` lemmas.
- The PHPUnit harness of `TypeTest.php`: its one assertion is `Demo.MixedTypeDemo`.
- Integer width: values and the counter are unbounded integers. PHP's 64-bit `int` overflow is not modelled; a counter could only overflow with more cells than memory holds.
- The dead `return false` after the two order branches (LinkedList.php:81, 105): `Order` has exactly two cases, and every dispatch on it is exhaustive.
