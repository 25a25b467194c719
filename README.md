# Verified model of My-DSA-Prep's data structures and interview helpers

This project models, in Dafny, the small data structures and algorithm helpers of
the My-DSA-Prep practice collection, and proves what each one promises:

- `Array_stack` (DSA-Revision-Codes/Stack.py): a bounded stack in a fixed array
  with a `top` index (`ArrayStack`, a class over an `array<int>`).
- `Array_queue` (DSA-Revision-Codes/Queue.py): a four-slot ring buffer with
  `front`, `rear` and an occupancy count `cur` (`ArrayQueue`, a class over an
  `array<int>` with a ghost `Contents()` in queue order).
- `Linkedlist` (DSA-Revision-Codes/rough.py): a singly linked list with tail
  insertion, in-place reversal by relinking and `println` (`SinglyLinked`, heap
  nodes with a ghost node sequence and footprint).
- `Dlinkedlist` (DSA-Revision-Codes/Doublylinkedlist.py): a doubly linked list
  with tail insertion and `println` (`DoublyLinked`).
- The helpers of run_examples.py:
  - `is_palindrome`, `is_anagram` and `reverse_words` (`Strings`), which are pure expressions;
  - the loop-based `compress_string` (`Compress`) and `kmp_search` (`Kmp`);
  - `sliding_window_max` and `next_greater` (`Window`);
  - `max_subarray`, `two_sum` and `rotate_right` (`ArrayHelpers`);
  - `valid_paren` (`Parens`) and the `build_list` / `to_list` linked-list smoke test (`SmokeList`).

  The expected values of all of run_examples.py's own tests but the
  palindrome test at line 78 are proved in the `*Example` modules.

Each loop of the source is a `method` with its loop invariants. Each method is
proved against an independent definition:
- `KmpSearch`: first occurrence.
- `CompressString`: the maximal runs of the string.
- `SlidingWindowMax`: the maximum of every window.
- `NextGreater`: first greater value to the right.
- `ValidParen`: nesting as the yield of a tree.
- `MaxSubarray`: largest sum of a slice.
- `TwoSum`: the first pair.
- `RotateRight`: rotation of the original array.

Lemmas then relate those definitions to each other, for example uniqueness of the
runs or reversal being an involution.

The Python functions `str.isspace`, `str.lower` and `str(int)` are modelled
on ASCII and integers in module `Text`; `str.split` and `' '.join` are
`Strings.Words` and `Strings.Join`. A Python
`return` without a value, and the failures that the source only prints, are
`None` or `false` results here.

## Model

| member | source | states |
|---|---|---|
| ArrayStack.Stack.constructor | My-DSA-Prep/DSA-Revision-Codes/Stack.py:38-42 | `cap` zeroed slots, `top == -1`, nothing stacked, invariant `-1 <= top <= cap - 1` established |
| ArrayStack.Stack.Contents | My-DSA-Prep/DSA-Revision-Codes/Stack.py:37-69 | the stacked values are the slots 0..top, so there are `top + 1` of them |
| ArrayStack.Stack.IsEmpty | My-DSA-Prep/DSA-Revision-Codes/Stack.py:44-45 | true exactly when `top == -1`, i.e. when nothing is stacked; changes nothing |
| ArrayStack.Stack.IsFull | My-DSA-Prep/DSA-Revision-Codes/Stack.py:47-48 | true exactly when `top == cap - 1`, i.e. when all `cap` slots hold values; changes nothing |
| ArrayStack.Stack.Peek | My-DSA-Prep/DSA-Revision-Codes/Stack.py:50-53 | the top value when non-empty; on an empty stack the source prints a message and still returns `self.arr[self.top]`, which is `arr[-1]`, the last slot, and no value when there is no slot (Python's IndexError); changes nothing |
| ArrayStack.Stack.Push | My-DSA-Prep/DSA-Revision-Codes/Stack.py:55-60 | refused exactly when full, with nothing changed; otherwise the value is appended to the contents and only slot `top + 1` is written; the invariant is kept |
| ArrayStack.Stack.Pop | My-DSA-Prep/DSA-Revision-Codes/Stack.py:62-69 | no value and no change when empty; otherwise returns the last stacked value, which leaves the contents; the invariant is kept |
| ArrayStack.PushThenPop | My-DSA-Prep/DSA-Revision-Codes/Stack.py:55-69 | a push onto a stack that is not full, followed by a pop, returns the pushed value and restores `top` and the contents |
| ArrayStack.Demo | My-DSA-Prep/DSA-Revision-Codes/Stack.py:72-99 | the demonstration peeks 80 and then 60, and its last push overflows and its last pop underflows |
| ArrayStack.DemoPeeks | My-DSA-Prep/DSA-Revision-Codes/Stack.py:74-84 | on the fresh stack of 8, five pushes then a peek give 80, and two pops then a peek give 60, leaving `top == 2` |
| ArrayStack.DemoOverflow | My-DSA-Prep/DSA-Revision-Codes/Stack.py:85-90 | from `top == 2`, five pushes fill the eight slots and the sixth is refused |
| ArrayStack.DemoUnderflow | My-DSA-Prep/DSA-Revision-Codes/Stack.py:91-99 | from a full stack, eight pops empty it and the ninth finds nothing |
| ArrayQueue.Ring | My-DSA-Prep/DSA-Revision-Codes/Queue.py:45-51 | the n values of the ring from slot `front`, element i stored at slot `(front + i) mod 4` |
| ArrayQueue.RingSnoc | My-DSA-Prep/DSA-Revision-Codes/Queue.py:48-51 | writing the slot after the last occupied one appends the item to the ring |
| ArrayQueue.NextSlot | My-DSA-Prep/DSA-Revision-Codes/Queue.py:48 | `(rear + 1) mod 4` is the slot `front + cur` places on, for `rear = (front + cur - 1) mod 4` |
| ArrayQueue.RingTail | My-DSA-Prep/DSA-Revision-Codes/Queue.py:57-63 | advancing `front` by one slot drops exactly the first value of the ring |
| ArrayQueue.Queue.Contents | My-DSA-Prep/DSA-Revision-Codes/Queue.py:33-86 | the queued values, front first: `cur` of them, the i-th in slot `(front + i) mod 4` |
| ArrayQueue.Queue.constructor | My-DSA-Prep/DSA-Revision-Codes/Queue.py:34-39 | four zeroed slots, `front == rear == -1`, `cur == 0`, empty contents, invariant established |
| ArrayQueue.Queue.Enqueue | My-DSA-Prep/DSA-Revision-Codes/Queue.py:40-51 | refused exactly when `cur == 4`, with `front`, `rear`, `cur` and the buffer unchanged; otherwise the item joins the back and `cur` grows by one; on an empty queue `front == rear == 0`, else `front` is kept and `rear` moves to `(rear + 1) mod 4`; only slot `rear` of the buffer is written; the invariant (0 <= cur <= 4, -1 sentinels exactly when empty, `rear == (front + cur - 1) mod 4`) is kept |
| ArrayQueue.Queue.Dequeue | My-DSA-Prep/DSA-Revision-Codes/Queue.py:53-64 | no value and nothing changed when empty; otherwise returns the first queued value and the contents lose exactly it (FIFO); `cur == 1` is tested before `front` advances, so dequeueing the last value resets both indices to -1; the buffer is never written |
| ArrayQueue.Queue.GetFront | My-DSA-Prep/DSA-Revision-Codes/Queue.py:66-70 | no value exactly when empty; otherwise `queue[front]`, the first queued value; changes nothing |
| ArrayQueue.Queue.GetRear | My-DSA-Prep/DSA-Revision-Codes/Queue.py:72-76 | no value exactly when empty; otherwise `queue[rear]`, the last queued value; changes nothing |
| ArrayQueue.Queue.Show | My-DSA-Prep/DSA-Revision-Codes/Queue.py:78-86 | the empty message exactly when `cur == 0`; otherwise the item list, whether sliced in one piece or two around the wrap, is the contents in queue order, with front item, rear item and size |
| ArrayQueue.Demo | My-DSA-Prep/DSA-Revision-Codes/Queue.py:90-105 | the demonstration dequeues 10, 20, 30, 40, 50 and then finds the queue empty, leaving `front == -1` and the empty message |
| SinglyLinked.Node.constructor | My-DSA-Prep/DSA-Revision-Codes/rough.py:10-13 | a node holding the value and linked to nothing |
| SinglyLinked.LinkedList.constructor | My-DSA-Prep/DSA-Revision-Codes/rough.py:16-17 | an empty list with a null head |
| SinglyLinked.LinkedList.Insert | My-DSA-Prep/DSA-Revision-Codes/rough.py:21-30 | the values become the old values plus the new one at the end; the old nodes keep their order; on an empty list the new node is the head, else the head is unchanged; the chain stays acyclic and null-terminated |
| SinglyLinked.LinkedList.Rev | My-DSA-Prep/DSA-Revision-Codes/rough.py:33-44 | the nodes and the values are exactly reversed, on the same set of nodes, and the chain stays acyclic; an empty list keeps a null head |
| SinglyLinked.LinkedList.Println | My-DSA-Prep/DSA-Revision-Codes/rough.py:47-53 | each value's decimal form followed by "->", head to tail, then "None" |
| SinglyLinked.ReversedLinks | My-DSA-Prep/DSA-Revision-Codes/rough.py:36-44 | nodes that each point back at their predecessor form, read backwards, a forward chain ending in null |
| SinglyLinked.ReversedData | My-DSA-Prep/DSA-Revision-Codes/rough.py:33-44 | the values held by the reversed nodes are the reversed values |
| SinglyLinked.RevTwice | My-DSA-Prep/DSA-Revision-Codes/rough.py:33-44 | reversing twice restores the original nodes and values |
| SinglyLinked.FromInserts | My-DSA-Prep/DSA-Revision-Codes/rough.py:56-62 | a fresh list after inserting each value in turn holds the values in insertion order |
| SinglyLinked.Demo | My-DSA-Prep/DSA-Revision-Codes/rough.py:56-65 | inserting 10..60, reversing and printing gives "60->50->40->30->20->10->None" |
| SinglyLinked.DemoReverse | My-DSA-Prep/DSA-Revision-Codes/rough.py:63 | the reverse of 10, 20, ..., 60 is 60, 50, ..., 10 |
| SinglyLinked.RenderSix | My-DSA-Prep/DSA-Revision-Codes/rough.py:47-53 | the rendering of six values written out piece by piece |
| SinglyLinked.DemoDigits | My-DSA-Prep/DSA-Revision-Codes/rough.py:51 | the decimal forms of 10, ..., 60 |
| SinglyLinked.DemoRender | My-DSA-Prep/DSA-Revision-Codes/rough.py:65 | the rendering of 60, 50, ..., 10 is "60->50->40->30->20->10->None" |
| DoublyLinked.Node.constructor | My-DSA-Prep/DSA-Revision-Codes/Doublylinkedlist.py:12-15 | a node holding the value with both links null |
| DoublyLinked.DList.constructor | My-DSA-Prep/DSA-Revision-Codes/Doublylinkedlist.py:18-19 | an empty list with a null head |
| DoublyLinked.DList.Insert | My-DSA-Prep/DSA-Revision-Codes/Doublylinkedlist.py:20-30 | the values become the old values plus the new one at the end; on an empty list the new node is the head, else the head is unchanged; among the old nodes only the tail's `next` changes; afterwards every `a.next == b` has `b.prev == a`, the head's `prev` and the tail's `next` are null |
| DoublyLinked.DList.Println | My-DSA-Prep/DSA-Revision-Codes/Doublylinkedlist.py:34-45 | each value's decimal form followed by "<->", head to tail, then "None"; the debug lines report exactly the nodes with both neighbours, with their neighbours' values |
| DoublyLinked.Interior | My-DSA-Prep/DSA-Revision-Codes/Doublylinkedlist.py:39-42 | one (value, previous, next) triple per node that is neither head nor tail, in list order |
| DoublyLinked.ReportedPrefix | My-DSA-Prep/DSA-Revision-Codes/Doublylinkedlist.py:37-43 | after visiting the first i nodes the reported triples are those of the interior nodes among them |
| DoublyLinked.ReportedAll | My-DSA-Prep/DSA-Revision-Codes/Doublylinkedlist.py:37-45 | visiting every node reports exactly the interior triples |
| DoublyLinked.FromInserts | My-DSA-Prep/DSA-Revision-Codes/Doublylinkedlist.py:50-55 | a fresh list after inserting each value in turn holds them in insertion order |
| DoublyLinked.Demo | My-DSA-Prep/DSA-Revision-Codes/Doublylinkedlist.py:50-56 | inserting 10..50 and printing gives "10<->20<->30<->40<->50<->None", and the debug lines report 20, 30 and 40 with their neighbours |
| DoublyLinked.RenderFive | My-DSA-Prep/DSA-Revision-Codes/Doublylinkedlist.py:34-45 | the rendering of five values written out piece by piece |
| DoublyLinked.DemoDigits | My-DSA-Prep/DSA-Revision-Codes/Doublylinkedlist.py:38 | the decimal forms of 10, ..., 50 |
| DoublyLinked.DemoRender | My-DSA-Prep/DSA-Revision-Codes/Doublylinkedlist.py:56 | the rendering of 10, ..., 50 is "10<->20<->30<->40<->50<->None" |
| Text.IsSpace | My-DSA-Prep/run_examples.py:10 | `str.isspace` on ASCII: true exactly for the ten characters 9-13, 28-31 and the space; `Strings.PalindromeIgnoresSpace` relies on it |
| Text.Lower | My-DSA-Prep/run_examples.py:10 | `str.lower` on a character: capitals move down by 32 to lower case, everything else is unchanged |
| Text.LowerAll | My-DSA-Prep/run_examples.py:15 | `str.lower` on a string, character by character |
| Text.DigitChar | My-DSA-Prep/DSA-Revision-Codes/rough.py:51 | the digit character of a value below 10 |
| Text.NatToString | My-DSA-Prep/DSA-Revision-Codes/rough.py:51 | `str(n)` for n >= 0: non-empty, starting with a digit and ending in the digit of `n % 10`; `ParseNatToString` shows it reads back as n |
| Text.IntToString | My-DSA-Prep/DSA-Revision-Codes/rough.py:51 | `str(n)` for any integer: non-empty, and starting with '-' exactly when n < 0; `IntToStringReadsBack` pins down the digits |
| Text.IntToStringReadsBack | My-DSA-Prep/DSA-Revision-Codes/rough.py:51 | after the sign, `str(n)` reads back as the magnitude of n, so distinct integers print differently |
| Text.NatToStringDigits | My-DSA-Prep/DSA-Revision-Codes/rough.py:51 | `str(n)` is a non-empty run of digits with a leading zero only for 0 |
| Text.ParseNatToString | My-DSA-Prep/DSA-Revision-Codes/rough.py:51 | `str(n)` reads back as n, so distinct numbers print differently |
| Text.ChainSnoc | My-DSA-Prep/DSA-Revision-Codes/rough.py:51 | one more node appends its value and the arrow to the printed chain |
| Text.ChainStep | My-DSA-Prep/DSA-Revision-Codes/rough.py:49-52 | after printing the first i values, printing value i extends the chain by its `str` and the arrow |
| Text.RenderedShape | My-DSA-Prep/DSA-Revision-Codes/rough.py:47-53 | an empty list prints "None"; every rendering ends in "None" after the last value and its arrow |
| Seqs.Reverse | My-DSA-Prep/run_examples.py:11 | the `[::-1]` slice keeps the length |
| Seqs.ReverseAt | My-DSA-Prep/run_examples.py:11 | element k of the reverse is element n - 1 - k |
| Seqs.ReverseIndexed | My-DSA-Prep/run_examples.py:11 | the reverse is mirrored pointwise |
| Seqs.ReverseFromIndices | My-DSA-Prep/run_examples.py:11 | any sequence mirrored pointwise is the reverse |
| Seqs.ReverseReverse | My-DSA-Prep/run_examples.py:19 | reversing twice gives the sequence back |
| Seqs.ReverseMultiset | My-DSA-Prep/DSA-Revision-Codes/rough.py:33-44 | reversal keeps the multiset of elements, so `rev` keeps length and values |
| Seqs.ReverseAppend | My-DSA-Prep/run_examples.py:11 | the reverse of a concatenation is the reversed parts swapped |
| Seqs.ReverseDistinct | My-DSA-Prep/DSA-Revision-Codes/rough.py:33-44 | reversal keeps the elements distinct, so the reversed chain is still acyclic |
| Seqs.ReverseElements | My-DSA-Prep/DSA-Revision-Codes/rough.py:33-44 | reversal keeps the set of elements |
| Strings.Normalize | My-DSA-Prep/run_examples.py:10 | the generator that drops whitespace and lower-cases the rest: no longer than the input, and as long when the input has no whitespace; `NormalizeShape`, `NormalizeAppend` and `NormalizeReverse` pin it down |
| Strings.NormalizeShape | My-DSA-Prep/run_examples.py:10 | the cleaned string is no longer and holds no whitespace and no capitals |
| Strings.IsPalindrome | My-DSA-Prep/run_examples.py:9-11 | true exactly when the cleaned string reads the same backwards, position by position |
| Strings.NormalizeAppend | My-DSA-Prep/run_examples.py:10 | the cleaning works piece by piece |
| Strings.NormalizeReverse | My-DSA-Prep/run_examples.py:10-11 | cleaning commutes with reversal |
| Strings.PalindromeReverse | My-DSA-Prep/run_examples.py:9-11 | a string is a palindrome exactly when its reverse is |
| Strings.PalindromeIgnoresSpace | My-DSA-Prep/run_examples.py:9-11 | whitespace anywhere does not change the answer |
| Strings.PalindromeIgnoresCase | My-DSA-Prep/run_examples.py:9-11 | lower-casing first does not change the answer |
| Strings.NormalizeLower | My-DSA-Prep/run_examples.py:10 | cleaning a lower-cased string is cleaning the original |
| Strings.RemoveSpaces | My-DSA-Prep/run_examples.py:15 | `replace(' ', '')` leaves no space and is no longer |
| Strings.AnagramKey | My-DSA-Prep/run_examples.py:15 | `s.replace(' ', '').lower()`: no longer than s, with no space and no capital left; `KeyReverse` and `KeyOfPlain` pin it down |
| Strings.IsAnagram | My-DSA-Prep/run_examples.py:14-15 | true exactly when the two `Counter`s of the space-stripped lower-cased strings agree on every character |
| Strings.CountIsMultiplicity | My-DSA-Prep/run_examples.py:15 | `Counter(s)[c]` is the multiplicity of c in the multiset of s |
| Strings.CountsAreMultiset | My-DSA-Prep/run_examples.py:15 | equal `Counter`s is exactly equal multisets |
| Strings.AnagramEquivalence | My-DSA-Prep/run_examples.py:14-15 | being anagrams is reflexive, symmetric and transitive |
| Strings.AnagramOfReverse | My-DSA-Prep/run_examples.py:14-15 | every string is an anagram of its reverse |
| Strings.KeyReverse | My-DSA-Prep/run_examples.py:15 | the compared key of a reversed string is the reversed key |
| Strings.RemoveSpacesAppend | My-DSA-Prep/run_examples.py:15 | removing spaces works piece by piece |
| Strings.RemoveSpacesReverse | My-DSA-Prep/run_examples.py:15 | removing spaces commutes with reversal |
| Strings.LowerAllReverse | My-DSA-Prep/run_examples.py:15 | lower-casing commutes with reversal |
| Strings.PlainAnagrams | My-DSA-Prep/run_examples.py:14-15 | strings without spaces and capitals that are permutations of each other are anagrams |
| Strings.KeyOfPlain | My-DSA-Prep/run_examples.py:15 | a string without spaces and capitals is its own key |
| Strings.RemoveSpacesOfPlain | My-DSA-Prep/run_examples.py:15 | a string without spaces is unchanged by `replace(' ', '')` |
| Strings.FirstWord | My-DSA-Prep/run_examples.py:19 | the leading maximal whitespace-free run: a prefix, free of whitespace, followed by whitespace or the end |
| Strings.Words | My-DSA-Prep/run_examples.py:19 | `s.split()`: at most one word per character, and no words exactly when s is all whitespace; `WordsAreWords` and `WordsOfJoin` pin it down |
| Strings.Join | My-DSA-Prep/run_examples.py:19 | `' '.join(ws)`: starts with the first word, and joining words leaves no whitespace but the separating spaces; `WordsOfJoin` shows `split` undoes it |
| Strings.WordsAreWords | My-DSA-Prep/run_examples.py:19 | every piece `split()` returns is non-empty and whitespace-free |
| Strings.FirstWordOf | My-DSA-Prep/run_examples.py:19 | a word followed by whitespace or nothing is split off whole |
| Strings.WordsOfJoin | My-DSA-Prep/run_examples.py:19 | splitting words joined by single spaces gives the words back |
| Strings.ReverseWords | My-DSA-Prep/run_examples.py:18-19 | `reverse_words(s)`: the only whitespace character left in it is the space; `ReverseWordsWords` shows its words are the input's in reverse order |
| Strings.ReverseWordsWords | My-DSA-Prep/run_examples.py:18-19 | the result's words are the input's words in reverse order |
| Strings.ReverseWordsTwice | My-DSA-Prep/run_examples.py:18-19 | reversing the words twice gives the original words, singly spaced |
| Strings.ReverseTwoWords | My-DSA-Prep/run_examples.py:18-19 | two words swap places |
| StringExamples.ListenSilent | My-DSA-Prep/run_examples.py:79 | "listen" and "silent" are anagrams |
| StringExamples.ListenSilentPlain | My-DSA-Prep/run_examples.py:79 | neither test word has spaces or capitals |
| StringExamples.ListenSilentLetters | My-DSA-Prep/run_examples.py:79 | the two test words are permutations of each other |
| StringExamples.HelloWorld | My-DSA-Prep/run_examples.py:80 | reversing the words of "Hello World" gives "World Hello" |
| StringExamples.HelloWorldWords | My-DSA-Prep/run_examples.py:80 | "Hello World" is the two words joined by a space |
| Compress.Pieces | My-DSA-Prep/run_examples.py:32-35 | the list `res` holds one piece per run, in order |
| Compress.CompressString | My-DSA-Prep/run_examples.py:22-37 | the loop returns the run-length form of the maximal runs of s when that is strictly shorter and s otherwise, so the result is never longer than s |
| Compress.RunsOfStep | My-DSA-Prep/run_examples.py:28-34 | a repeated character lengthens the current run, another one closes it and starts a run of 1 |
| Compress.AppendPiece | My-DSA-Prep/run_examples.py:32-35 | appending a run's piece extends the list of pieces by it |
| Compress.Repeat | My-DSA-Prep/run_examples.py:22-37 | n copies of a character have length n |
| Compress.RunsOfPrefix | My-DSA-Prep/run_examples.py:28-34 | the runs of a prefix depend only on that prefix |
| Compress.RunsExpand | My-DSA-Prep/run_examples.py:22-37 | writing the runs out in full gives the string back |
| Compress.RunsOfExpand | My-DSA-Prep/run_examples.py:28-34 | the runs after i characters write out to the first i characters |
| Compress.RunsSnoc | My-DSA-Prep/run_examples.py:28-34 | one more character lengthens the last run or starts a new one |
| Compress.RunsStep | My-DSA-Prep/run_examples.py:28-34 | the step on runs adds exactly that character to their expansion |
| Compress.ExtendStep | My-DSA-Prep/run_examples.py:29-30 | `count += 1` adds one character to the expansion |
| Compress.RunsMaximal | My-DSA-Prep/run_examples.py:22-37 | every run is non-empty and neighbouring runs hold different characters |
| Compress.RunsOfMaximal | My-DSA-Prep/run_examples.py:28-34 | the runs after i characters are maximal and the last one holds character i - 1 |
| Compress.MaximalExtend | My-DSA-Prep/run_examples.py:28-34 | a step keeps the runs maximal and ends them with the new character |
| Compress.RunsUnique | My-DSA-Prep/run_examples.py:22-37 | maximal runs are the only maximal runs expanding to their string |
| Compress.ExpandLast | My-DSA-Prep/run_examples.py:22-37 | non-empty maximal runs expand to a string ending in the last run's character |
| Compress.RunsLast | My-DSA-Prep/run_examples.py:35 | the last run (the one appended after the loop) holds the string's last character |
| Compress.RunsOfRepeat | My-DSA-Prep/run_examples.py:22-37 | appending a run of a new character adds exactly that run |
| Compress.ExtendNew | My-DSA-Prep/run_examples.py:31-34 | a character other than the last run's starts a run of 1 |
| Compress.ExtendSame | My-DSA-Prep/run_examples.py:29-30 | the last run's character lengthens that run |
| Compress.ExpandAppend | My-DSA-Prep/run_examples.py:22-37 | one more run adds its copies to the expansion |
| Compress.CompressEmpty | My-DSA-Prep/run_examples.py:23-24 | the empty string compresses to itself |
| Compress.CompressExample | My-DSA-Prep/run_examples.py:81 | "aaabbbccc" compresses to "a3b3c3" |
| Compress.RepeatThree | My-DSA-Prep/run_examples.py:81 | three copies of a character, written out |
| Compress.ExpandThree | My-DSA-Prep/run_examples.py:81 | the expansion of three runs is their copies side by side |
| Compress.EncodeThree | My-DSA-Prep/run_examples.py:36 | the joined form of three runs is their three pieces side by side |
| Kmp.BorderExtend | My-DSA-Prep/run_examples.py:48-51 | a border extends by one character exactly when the next characters agree |
| Kmp.BorderOfBorder | My-DSA-Prep/run_examples.py:53-54 | below a border of length m, the borders of the prefix are those of the border |
| Kmp.TableSnoc | My-DSA-Prep/run_examples.py:48-57 | a correct table stays correct when the next longest border is recorded |
| Kmp.ComputeLps | My-DSA-Prep/run_examples.py:44-57 | each `lps[i]` is the length of the longest proper prefix of `pattern[..i+1]` that is also its suffix, so `0 <= lps[i] <= i` |
| Kmp.ExtendLongest | My-DSA-Prep/run_examples.py:48-51 | extending the longest border that can be extended gives the longest border one character on |
| Kmp.FallBack | My-DSA-Prep/run_examples.py:53-54 | `length = lps[length-1]` gives a shorter border and skips only borders that cannot extend |
| Kmp.NoBorder | My-DSA-Prep/run_examples.py:55-57 | when not even the empty border extends, the longest border is 0 |
| Kmp.KmpSearch | My-DSA-Prep/run_examples.py:40-70 | 0 for the empty pattern; otherwise -1 exactly when the pattern occurs nowhere, and else the position of its first occurrence |
| Kmp.Shift | My-DSA-Prep/run_examples.py:65-67 | after a mismatch, falling back to `lps[j-1]` skips no occurrence and keeps the partial match |
| KmpExample.Mismatch | My-DSA-Prep/run_examples.py:82 | one disagreeing character rules out an occurrence |
| KmpExample.FirstAtTen | My-DSA-Prep/run_examples.py:82 | "ABABCABAB" first occurs in "ABABDABACDABABCABAB" at 10 |
| KmpExample.Example | My-DSA-Prep/run_examples.py:82 | the search returns 10 on the test input |
| Window.MaxBounds | My-DSA-Prep/run_examples.py:93-107 | the maximum is an element and no element exceeds it |
| Window.MaxIs | My-DSA-Prep/run_examples.py:93-107 | an element no element exceeds is the maximum |
| Window.MaximaAt | My-DSA-Prep/run_examples.py:105-106 | one entry per full window inside the prefix, each that window's maximum |
| Window.WindowMaximaSpec | My-DSA-Prep/run_examples.py:95-107 | none for empty input or `k <= 0`, else `len(a) - k + 1` entries (0 when k is too large), each the largest value of its window and one of its values |
| Window.FrontDominates | My-DSA-Prep/run_examples.py:99-106 | the front of the deque dominates every window position up to each of its indices |
| Window.FrontIsMax | My-DSA-Prep/run_examples.py:105-106 | once i is pushed, `a[dq[0]]` is the window's maximum |
| Window.PopFront | My-DSA-Prep/run_examples.py:100-101 | dropping an index that left the window keeps the deque's shape |
| Window.PopBack | My-DSA-Prep/run_examples.py:102-103 | dropping a back index holding less than `a[i]` keeps the shape |
| Window.SnocShape | My-DSA-Prep/run_examples.py:104 | appending i behind indices holding at least `a[i]` keeps them increasing and their values non-increasing |
| Window.Push | My-DSA-Prep/run_examples.py:104 | appending i keeps the shape, now up to i |
| Window.SlidingWindowMax | My-DSA-Prep/run_examples.py:93-107 | the result is the maximum of every full window, left to right |
| Window.Slide | My-DSA-Prep/run_examples.py:99-106 | one loop pass ends with i at the back of the deque and a position no later than i at its front, keeps the deque's shape, and once the window is full leaves the window maximum at its front |
| Window.Append | My-DSA-Prep/run_examples.py:104-106 | `dq.append(i)` after the two inner loops keeps the shape, and once the window is full `a[dq[0]]` is its maximum |
| Window.DropExpired | My-DSA-Prep/run_examples.py:100-101 | after the first inner loop no index outside the window remains, and the shape is kept |
| Window.DropSmaller | My-DSA-Prep/run_examples.py:102-103 | after the second inner loop no back index holds less than `a[i]`, and the shape is kept |
| Window.NextGreaterFromSpec | My-DSA-Prep/run_examples.py:109-116 | the scan gives the first later value exceeding `a[i]` whenever one exists, or -1 when none does |
| Window.NextGreater | My-DSA-Prep/run_examples.py:109-116 | the result has the input's length and holds, for each position, the first later greater value or -1 |
| Window.Resolve | My-DSA-Prep/run_examples.py:113-114 | popping a position below `a[i]` records `a[i]` as its answer |
| Window.Advance | My-DSA-Prep/run_examples.py:115 | pushing i keeps the stack's shape and the pending positions |
| Window.StackAtLeast | My-DSA-Prep/run_examples.py:113-115 | below a top holding at least `a[i]`, every stacked position holds at least `a[i]` |
| Window.PendingSnoc | My-DSA-Prep/run_examples.py:115 | positions still waiting have seen nothing greater, up to and including `a[i]` |
| WindowExample.MaxThree | My-DSA-Prep/run_examples.py:119 | the maximum of three values |
| WindowExample.WindowsOfExample | My-DSA-Prep/run_examples.py:119 | the window maxima of the test input are 3, 3, 5, 5, 6, 7 |
| WindowExample.SlidingExample | My-DSA-Prep/run_examples.py:119 | `sliding_window_max([1,3,-1,-3,5,3,6,7], 3)` is `[3,3,5,5,6,7]` |
| WindowExample.NextGreaterOfExample | My-DSA-Prep/run_examples.py:120 | the next greater values of the test input are 4, 2, 4, -1, -1 |
| WindowExample.NextGreaterExample | My-DSA-Prep/run_examples.py:120 | `next_greater([2,1,2,4,3])` is `[4,2,4,-1,-1]` |
| ArrayHelpers.MaxSubarray | My-DSA-Prep/run_examples.py:85-91 | the result is at least -10**18, no slice sums to more, and unless it is -10**18 some non-empty slice sums to it |
| ArrayHelpers.TwoSum | My-DSA-Prep/run_examples.py:123-129 | `[]` exactly when no two positions sum to the target; otherwise `[p, q]` with `p < q` summing to it, q the first position completing a pair and p the latest earlier partner |
| ArrayHelpers.SeenPair | My-DSA-Prep/run_examples.py:125-127 | when `target - x` is in `seen`, its stored position and i sum to the target, no position between them pairs with i, and so a pair exists |
| ArrayHelpers.SeenExtend | My-DSA-Prep/run_examples.py:125-128 | when `target - x` is not in `seen`, no pair ends at i, and `seen[x] = i` keeps `seen` mapping each value of the prefix to its last position |
| ArrayHelpers.RotatedAt | My-DSA-Prep/run_examples.py:131-136 | rotating right by k moves element i to `i + k`, wrapping the last k round to the front |
| ArrayHelpers.RotatedMultiset | My-DSA-Prep/run_examples.py:131-136 | rotation is a permutation |
| ArrayHelpers.ReversedRangeSlices | My-DSA-Prep/run_examples.py:134-136 | `a[lo:hi] = a[lo:hi][::-1]` is the slice reversed between the untouched parts |
| ArrayHelpers.ThreeReversals | My-DSA-Prep/run_examples.py:134-136 | reversing the whole, then the first k, then the rest, is rotating right by k |
| ArrayHelpers.ReverseSlice | My-DSA-Prep/run_examples.py:134-136 | the slice assignment, in place, reverses the range and leaves the rest |
| ArrayHelpers.RotateRight | My-DSA-Prep/run_examples.py:131-136 | fails exactly on an empty list, with nothing changed; otherwise the array becomes the original rotated right by `k mod n` |
| ArrayHelpers.RotateRightSpec | My-DSA-Prep/run_examples.py:131-136 | the rotated array is a permutation with `new[i + k mod n] == old[i]`, wrapping round |
| ArrayExample.SumSplit | My-DSA-Prep/run_examples.py:118 | a slice sum splits at any point in between |
| ArrayExample.AtMostSix | My-DSA-Prep/run_examples.py:118 | no slice of the test input sums to more than 6 |
| ArrayExample.MaxSubarrayExample | My-DSA-Prep/run_examples.py:118 | `max_subarray([-2,1,-3,4,-1,2,1,-5,4])` is 6 |
| ArrayExample.TwoSumExample | My-DSA-Prep/run_examples.py:138 | `two_sum([2,7,11,15], 9)` is `[0,1]` |
| ArrayExample.RotateExample | My-DSA-Prep/run_examples.py:139-141 | rotating `[1..7]` right by 3 gives `[5,6,7,1,2,3,4]` |
| Parens.OpenerOf | My-DSA-Prep/run_examples.py:173 | the dictionary maps each closer to an opener |
| Parens.CloserOf | My-DSA-Prep/run_examples.py:173 | each opener has a closer that the dictionary maps back to it |
| Parens.RunNonePrefix | My-DSA-Prep/run_examples.py:178-179 | once a prefix fails, `return False` decides the whole string |
| Parens.ValidParen | My-DSA-Prep/run_examples.py:171-180 | true exactly when every closer meets its own opener and none is left over, and that is exactly when the brackets are properly nested |
| Parens.Brackets | My-DSA-Prep/run_examples.py:174-179 | the characters the loop acts on are brackets, in order |
| Parens.RunAppend | My-DSA-Prep/run_examples.py:174-179 | reading u then v continues from the stack u leaves |
| Parens.RunIgnoresOthers | My-DSA-Prep/run_examples.py:175-177 | characters other than brackets do not affect the stack |
| Parens.RunGood | My-DSA-Prep/run_examples.py:174-179 | a properly nested string leaves the stack as it found it |
| Parens.Openers | My-DSA-Prep/run_examples.py:176 | the stack holds one opener per waiting frame |
| Parens.CloseFrame | My-DSA-Prep/run_examples.py:178 | a matching closer pops the last opener and wraps what followed it, keeping everything nested |
| Parens.CloseGood | My-DSA-Prep/run_examples.py:178 | closing a frame keeps every tree nested |
| Parens.CloseOpeners | My-DSA-Prep/run_examples.py:178 | closing a frame pops the last opener |
| Parens.CloseLayout | My-DSA-Prep/run_examples.py:178 | closing a frame appends the closer to the described string |
| Parens.CloseLayoutLast | My-DSA-Prep/run_examples.py:178 | closing the only frame appends the closer |
| Parens.CloseLayoutInner | My-DSA-Prep/run_examples.py:178 | closing an inner frame appends the closer |
| Parens.Complete | My-DSA-Prep/run_examples.py:174-179 | after a successful run the brackets read so far are a nested string followed by each waiting opener and the nested string since it |
| Parens.ValidIffBalanced | My-DSA-Prep/run_examples.py:171-180 | the run ends with an empty stack exactly when the brackets are properly nested |
| ParensExample.RunOfExample | My-DSA-Prep/run_examples.py:182 | "()[]{}" leaves an empty stack |
| ParensExample.Example | My-DSA-Prep/run_examples.py:182 | `valid_paren("()[]{}")` is true |
| ParensExample.Mismatched | My-DSA-Prep/run_examples.py:178-179 | `valid_paren("(]")` is false |
| SmokeList.Node.constructor | My-DSA-Prep/run_examples.py:144-147 | a node holding the value, linked to nothing |
| SmokeList.BuildList | My-DSA-Prep/run_examples.py:149-158 | a null-terminated chain of fresh nodes holding the values in order |
| SmokeList.ToList | My-DSA-Prep/run_examples.py:160-165 | the values of the chain from the head, in order |
| SmokeList.RoundTrip | My-DSA-Prep/run_examples.py:149-165 | `to_list(build_list(vals))` is `vals` |
| SmokeList.Example | My-DSA-Prep/run_examples.py:167-168 | `to_list(build_list([1,2,3]))` is `[1,2,3]` |

## Left out

- Console output: the messages printed on overflow, underflow and empty
  access, the `h()` separators, and the module-level demo prints. Failures are
  reported as `false` or `None` results instead.
- The test driver loop of run_examples.py (lines 184-204) and its argument
  parsing. The expected values of all its tests but the palindrome test at
  line 78 are proved as lemmas and as methods in the `*Example` modules.
- The throwaway Python-list stack and queue demos at the top of Stack.py and
  Queue.py. They use only the list built-ins.
- DSA-Revision-Codes/Linkedlist.py, "next greater element.py" and "next
  smaller element.py" are not part of this model. The first has no operation
  at all, and the other two are variants of the helpers modelled here.
- Unicode: `str.isspace`, `str.lower` and `str.split` are modelled on ASCII
  only, and `str` of a list element only for integers. All list elements are
  `int`.
- Strings.IsPalindrome: the test "A man a plan a canal Panama" (line 78) is
  not proved as an example. Only the general laws are proved: reversal,
  whitespace and case.
- DoublyLinked.DList.Println: the three debug `print` calls per interior node
  are returned as the `shown` triples and are not printed.
- ArrayStack.Stack.Peek: the empty-stack message is not printed. The value
  read from `arr[-1]` is returned as Python does.
- ArrayHelpers.RotateRight: on an empty list `k %= n` raises
  ZeroDivisionError. The model returns `false` instead and leaves the array
  alone.
- ArrayHelpers.MaxSubarray: the sentinel `-10**18` is a plain integer, so for
  inputs whose best sum lies below it the result is the sentinel, as in
  Python.
- Window.SlidingWindowMax: the `deque` is a sequence of indices, and the
  loop body is split into the methods `Slide`, `DropExpired` and
  `DropSmaller` and the lemma `Append`.
- ArrayQueue.Queue.Show: the f-string and the "Queue is empty" text that
  `__str__` returns are modelled as the `View` datatype (`EmptyView`, or the
  front item, rear item, items in queue order and size), not rendered as characters.
- Window.NextGreater: the stack is a sequence of indices, and the `res` list
  is a sequence updated at the popped index.
- Compress.CompressString: the list `res` is a sequence of pieces. The
  `''.join` is the function `Concat`.
- ArrayHelpers.TwoSum: the dictionary `seen` is a Dafny `map`.
- SmokeList.BuildList: the falsy test `if not head` is modelled as a null
  test, since nodes are always truthy.
