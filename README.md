# StackAndArtists: a verified model of the bounded stack and the artist-list parser

This project models two parts of the StackAndArtists repository in Dafny and
proves properties of the model.

- **`Stack<T>` (stack.h).** This is a generic stack with a fixed capacity. It
  owns a buffer of `max_size_` slots. The first `top_` slots hold the live
  elements, bottom first.
  - `push`, `pop` and `top` are checked. They throw `std::length_error` on
    overflow or underflow.
  - `clear` is logical: only the count is reset.
  - `fill` checks the length before anything is cleared.
  - Copying is deep.
  - `==` compares capacity, size and the live elements.
  - `checkif` passes a user predicate through.
  - `operator<<` writes `[ e0 e1 ... ]` or `[ stack empty ]`.
  - Three cursor classes traverse the live elements: `iterator` and
    `const_iterator` go bottom to top, and `readOnlyIterator` goes top to
    bottom down to a sentinel one slot below the bottom.
- **The artist-list parser (Qt/mainwindow.cpp).** `MainWindow::parseResult`
  turns a downloaded text into `Artist(link, name)` records (Qt/artist.cpp:11).
  - It reads one record per line that holds a space.
  - The link is the text before the first space with its quotes removed. A
    non-empty link that does not start with `http` gets
    `https://en.wikipedia.org` in front.
  - The name is the text after the first space, with `_` turned into a space
    and `&amp` turned into `&`.
  - The first-letter tally in `createPieGraph` counts artists by the first
    character of their names.

Files:

- `stack.dfy` (module `Stacks`) has the class `Stack<T>`.
  - Each `std::length_error` becomes a `Fail`/`Failure` value that names its
    throw site, and the state is left unchanged.
  - `Contents()` is the live prefix `stack[..top]`.
  - `Valid()` keeps `top <= maxSize == stack.Length < 2^32`.
- `iterators.dfy` (module `StackIterators`) has the three cursor classes.
  - A C++ cursor pointer `stack_` becomes the pair (`data`, `pos`): the buffer
    it points into and its integer offset.
  - Equality is "same buffer, same offset", as pointer equality is.
  - `operator!=` is written as `!Equals(...)`.
- `traversals.dfy` (module `StackTraversals`) has loops from a begin cursor
  to an end cursor. Each is proved to visit exactly the live elements, in the
  direction of the cursor.
  - `ConvertedConstTraversal` is the loop of main.cpp:223-231.
    - Both of its `const_iterator`s are converted from the non-const
      `begin()` and `end()` (stack.h:448).
    - It compares them with `const_iterator`'s own `!=` (stack.h:429-431).
  - `ReverseTraversal` is the `readOnlyIterator` loop of main.cpp:251-258
    and 272-279.
  - `ForwardTraversal` and `ConstTraversal` are two more loops the cursor
    interface allows; main.cpp does not contain them.
- `laws.dfy` (module `StackLaws`) has laws that span several calls: the
  push/pop inverse, copy-initialisation, copy independence, and the
  two `checkif` assertions on the int stack (main.cpp:344, 348).
- `qtstrings.dfy` (module `QtStrings`) models the `QString` operations the
  parser calls.
- `artists.dfy` (module `Artists`) has the `Artist` record, the parser and the
  tally.
  - The datatype `Artists.Artist(link, name)` is the record built by
    `Artist(QString link, QString name)` (Qt/artist.cpp:11).
  - Its two fields are what `getLink` and `getName` return
    (Qt/artist.cpp:13-19).

Notes on the code as written:

- `readOnlyBegin()` is `stack_ + top_ - 1` (stack.h:545). On an empty stack it
  computes the same address as `readOnlyEnd()`. Both form `stack_ - 1`, which
  standard C++ leaves undefined. The model reads that sentinel as offset -1;
  see "Raw pointer arithmetic" under "## Left out".
- The range constructor sets the capacity to `last - first` converted to
  `unsigned int` (stack.h:45). So `Stack.FromSequence` takes the capacity as
  the length modulo 2^32, and it copies only that many elements.
- Three members do not compile if instantiated. Each is modelled by its evident
  intent:
  - `operator=` calls a constructor `Stack(other, max, top)` that does not
    exist (stack.h:93). `Stacks.Stack.Assign` builds the temporary with the
    copy constructor and then swaps.
  - `const_iterator::operator++(int)` calls a constructor
    `const_iterator(*this, top_)` that does not exist (stack.h:412).
    `ConstIterator.PostNext` copies the cursor at its old position.
  - `const_iterator::operator=(const iterator&)` compares pointers of
    unrelated types (stack.h:452). `ConstIterator.AssignIterator` copies
    without that check, since a `const_iterator` and an `iterator` can never
    be the same object.

## Model

| member | source | states |
|---|---|---|
| `Stacks.Stack.constructor` | stack.h:17 | the default stack has capacity 0 and no elements, so it is both empty and full |
| `Stacks.Stack.WithCapacity` | stack.h:26-34 | a fresh buffer of the given capacity with no live elements; empty, and full exactly when the capacity is 0 |
| `Stacks.Stack.FromSequence` | stack.h:44-56 | the capacity is the length modulo 2^32 and the contents are that many leading elements of the input, in order; below 2^32 elements, size equals capacity equals the length and the contents are the input |
| `Stacks.Stack.Copy` | stack.h:63-74 | a fresh buffer, distinct from the source's, with the same capacity and the same live elements |
| `Stacks.Stack.Assign` | stack.h:91-99 | afterwards the capacity and contents are those `other` had; unless it is a self-assignment, the stack owns a fresh buffer |
| `Stacks.Stack.Equals` | stack.h:108-118 | true exactly when the capacities are equal and the live elements agree pairwise (hence also the sizes) |
| `Stacks.Stack.Push` | stack.h:127-134 | with room, the value lands in slot `top`, `top` grows by one, the contents gain the value at the end, and no other slot changes; when full, it fails with the overflow error and the state is unchanged |
| `Stacks.Stack.Pop` | stack.h:143-148 | succeeds exactly on a non-empty stack, returning the former top element and leaving the contents without it; on an empty stack, it fails with the underflow error and changes nothing |
| `Stacks.Stack.Top` | stack.h:155-160 | succeeds exactly on a non-empty stack, returning the last live element; otherwise it fails with the `top` underflow error |
| `Stacks.Stack.Clear` | stack.h:166-168 | the contents become empty; the buffer and capacity are untouched |
| `Stacks.Stack.Empty` | stack.h:175-177 | true exactly when there are no live elements |
| `Stacks.Stack.Full` | stack.h:184-186 | true exactly when the number of live elements equals the capacity |
| `Stacks.Stack.Size` | stack.h:193-195 | the number of live elements, never above the capacity |
| `Stacks.Stack.MaxSize` | stack.h:202-204 | the length of the buffer, an `unsigned int` value |
| `Stacks.Stack.Fill` | stack.h:236-251 | an input longer than the capacity fails with the fill error before anything changes; otherwise the contents become the input, the buffer is reused, and the slots past the input keep their old values |
| `Stacks.Stack.CheckIf` | stack.h:263-269 | the result is the predicate's verdict on the element, unchanged |
| `Stacks.Stack.Print` | stack.h:214-226 | the text is `"[ "`, then `"stack empty "` or each live element followed by a space from bottom to top, then `"]\n"` |
| `Stacks.ItemsAppend` | stack.h:220-222 | the element text of a concatenation is the two texts side by side, so each element appears once, in stack order |
| `Stacks.Stack.Begin` | stack.h:366-368 | a fresh `iterator` at offset 0 of the stack's own buffer |
| `Stacks.Stack.End` | stack.h:371-373 | a fresh `iterator` at offset `top`, one past the last live element |
| `Stacks.Stack.ConstBegin` | stack.h:476-478 | a fresh `const_iterator` at offset 0 |
| `Stacks.Stack.ConstEnd` | stack.h:481-483 | a fresh `const_iterator` at offset `top` |
| `Stacks.Stack.ReadOnlyBegin` | stack.h:544-546 | a fresh `readOnlyIterator` at offset `top - 1`: the top element, or the sentinel -1 when empty |
| `Stacks.Stack.ReadOnlyEnd` | stack.h:548-550 | a fresh `readOnlyIterator` at the sentinel offset -1 |
| `Stacks.ReversedReversed` | stack.h:544-550 | reading the top-to-bottom order backwards gives the bottom-to-top order again |
| `StackIterators.Iterator.At` | stack.h:357 | the cursor addresses the given offset of the given buffer |
| `StackIterators.Iterator.Copy` | stack.h:291 | the copy addresses the same slot and compares equal |
| `StackIterators.Iterator.Assign` | stack.h:293-299 | afterwards the cursor addresses the slot `other` addressed and compares equal to it |
| `StackIterators.Iterator.Set` | stack.h:304-306 | writing through `*it` stores the value in the addressed slot of the stack's buffer and in no other slot, and `*it` then reads it |
| `StackIterators.Iterator.Get` | stack.h:304-306 | `*it` reads the addressed slot; after `*it = v` it reads `v` (`Set`) |
| `StackIterators.Iterator.Equals` | stack.h:326-333 | `==` holds exactly when both cursors address the same slot of the same buffer; `!=` is its negation |
| `StackIterators.Iterator.EqualsConst` | stack.h:338-346 | `iterator == const_iterator` compares the addressed slots |
| `StackIterators.Iterator.Next` | stack.h:321-324 | the offset moves up by one |
| `StackIterators.Iterator.PostNext` | stack.h:314-318 | returns a fresh cursor at the old offset and moves up by one |
| `StackIterators.ConstIterator.At` | stack.h:467 | the cursor addresses the given offset of the given buffer |
| `StackIterators.ConstIterator.Copy` | stack.h:388 | the copy addresses the same slot and compares equal |
| `StackIterators.ConstIterator.FromIterator` | stack.h:448 | converting an `iterator` keeps the slot, and the two compare equal in both mixed directions |
| `StackIterators.ConstIterator.Assign` | stack.h:390-396 | afterwards the cursor addresses the slot `other` addressed |
| `StackIterators.ConstIterator.AssignIterator` | stack.h:451-457 | after `const_iterator = iterator`, the two address the same slot and compare equal |
| `StackIterators.ConstIterator.Get` | stack.h:401-403 | `*it` reads the addressed slot; a `const_iterator` converted from an `iterator` reads the same element |
| `StackIterators.ConstIterator.Equals` | stack.h:424-432 | `==` holds exactly when both cursors address the same slot of the same buffer; `!=` is its negation |
| `StackIterators.ConstIterator.EqualsIterator` | stack.h:438-445 | `const_iterator == iterator` compares the addressed slots |
| `StackIterators.MixedEqualsAgree` | stack.h:338-445 | the two mixed comparisons always give the same answer |
| `StackIterators.ConstIterator.Next` | stack.h:418-421 | the offset moves up by one |
| `StackIterators.ConstIterator.PostNext` | stack.h:411-415 | returns a fresh cursor at the old offset and moves up by one |
| `StackIterators.ReadOnlyIterator.At` | stack.h:536 | the cursor addresses the given offset of the given buffer |
| `StackIterators.ReadOnlyIterator.Copy` | stack.h:498 | the copy addresses the same slot and compares equal |
| `StackIterators.ReadOnlyIterator.Get` | stack.h:500-503 | `*it` reads the addressed slot; after `*it = v` it reads `v` (`Set`) |
| `StackIterators.ReadOnlyIterator.Set` | stack.h:500-503 | `operator*` returns `T&`, so `*it = v` stores `v` in the addressed slot and in no other slot |
| `StackIterators.ReadOnlyIterator.Equals` | stack.h:522-530 | `==` holds exactly when both cursors address the same slot of the same buffer; `!=` is its negation |
| `StackIterators.ReadOnlyIterator.Next` | stack.h:510-514 | the offset moves down by one |
| `StackIterators.ReadOnlyIterator.PostNext` | stack.h:516-520 | returns a fresh cursor at the old offset and moves down by one |
| `StackTraversals.ForwardTraversal` | stack.h:304-373 | the loop from `begin()` to `end()` with `*it`, `!=` and `++it` visits exactly the live elements, bottom to top |
| `StackTraversals.ConvertedConstTraversal` | main.cpp:223-231 | two `const_iterator`s converted from `begin()` and `end()`, compared with `const_iterator`'s `!=`, visit exactly the live elements, bottom to top |
| `StackTraversals.ConstTraversal` | stack.h:401-483 | a `const_iterator` from `begin() const`, compared with the mutable `end()` through the mixed `!=`, visits exactly the live elements, bottom to top |
| `StackTraversals.ReverseTraversal` | stack.h:500-550 | the loop from `readOnlyBegin()` to `readOnlyEnd()` visits exactly the live elements, top to bottom; on an empty stack it visits nothing, because begin already equals end |
| `StackTraversals.BothTraversals` | stack.h:366-373 | the two traversal orders are each other's reversal |
| `StackLaws.PushAllPopAll` | stack.h:127-148 | n pushes onto a stack with room, then n pops, return the pushed values in reverse order and restore the contents |
| `StackLaws.CopyInitialisation` | main.cpp:146-148 | a copy-initialised stack is `==` to its source and owns its own buffer |
| `StackLaws.CopyIndependence` | stack.h:63-74 | pushing onto the source after a copy leaves the copy's contents unchanged; the two stay `==` exactly when the push failed |
| `StackLaws.CheckIfOnTop` | main.cpp:335-348 | on the stack built from 1..8, `checkif(biggerThan5, top())` holds, and after one `pop`, `checkif(isOdd, top())` holds |
| `QtStrings.IndexOf` | Qt/mainwindow.cpp:64 | -1 exactly when the character is absent; otherwise the index of its first occurrence |
| `QtStrings.Split` | Qt/mainwindow.cpp:61 | at least one part, and no part contains the separator |
| `QtStrings.JoinSplit` | Qt/mainwindow.cpp:61 | joining the parts with the separator gives back the text |
| `QtStrings.SplitSingle` | Qt/mainwindow.cpp:61 | a text splits into a single part exactly when it holds no separator |
| `QtStrings.StartsWith` | Qt/mainwindow.cpp:70 | case-sensitive prefix test; `StartsWithAppend` gives its meaning as a decomposition |
| `QtStrings.Contains` | Qt/mainwindow.cpp:74 | the pattern starts the text or occurs in the text after its first character; `ContainsAt` gives the offset form |
| `QtStrings.StartsWithAppend` | Qt/mainwindow.cpp:70 | `startsWith(p)` holds exactly when the text is `p` followed by some text |
| `QtStrings.ContainsAt` | Qt/mainwindow.cpp:74 | `contains` holds exactly when the pattern occurs at some offset |
| `QtStrings.Left1` | Qt/mainwindow.cpp:151 | `left(1)` is a prefix, one character long, or empty for an empty string |
| `QtStrings.Remove` | Qt/mainwindow.cpp:69 | the result has no occurrence of the character and only characters of the input; a text without the character is unchanged |
| `QtStrings.RemoveAppend` | Qt/mainwindow.cpp:69 | removal distributes over concatenation, so the kept characters keep their order |
| `QtStrings.ReplaceChar` | Qt/mainwindow.cpp:73 | same length, with each occurrence of `from` replaced by `to` and every other character kept in place |
| `QtStrings.ReplaceAll` | Qt/mainwindow.cpp:74-75 | one left-to-right scan that replaces non-overlapping occurrences; `ReplaceAllBounds` and `ReplaceAllPieces` state what it produces |
| `QtStrings.ReplaceAllBounds` | Qt/mainwindow.cpp:74-75 | a text without the pattern is unchanged; with a shorter replacement, the text shrinks exactly when it holds the pattern; no new characters appear except those of the replacement |
| `QtStrings.ReplaceAfterPart` | Qt/mainwindow.cpp:75 | a part free of the pattern is copied as it is, and the occurrence after it becomes the replacement, when the pattern has no proper border |
| `QtStrings.ReplaceAllJoin` | Qt/mainwindow.cpp:75 | for a pattern with no proper border, replacing turns a join of pattern-free parts with the pattern into the join of the same parts with the replacement |
| `QtStrings.PiecesJoin` | Qt/mainwindow.cpp:75 | the pieces of a text between the pattern's occurrences, joined with the pattern, give back the text |
| `QtStrings.PiecesFree` | Qt/mainwindow.cpp:75 | no piece holds the pattern |
| `QtStrings.ReplaceAllPieces` | Qt/mainwindow.cpp:75 | for every pattern, the result is the text's pieces joined with the replacement: every occurrence the scan meets is replaced, and the text between occurrences is kept, in order |
| `QtStrings.AmpUnbordered` | Qt/mainwindow.cpp:75 | `&amp` has no proper border, so `ReplaceAllJoin` applies to the parser's call |
| `QtStrings.ReplaceCanRebuild` | Qt/mainwindow.cpp:75 | `"&ampamp"` becomes `"&amp"`: one left-to-right pass can leave an `&amp` in the result |
| `Artists.AbsoluteLink` | Qt/mainwindow.cpp:70-71 | an empty link stays empty; a non-empty link not starting with `http` gets the Wikipedia prefix; every non-empty result starts with `http` |
| `Artists.DisplayName` | Qt/mainwindow.cpp:73-75 | the name has no `_` and is no longer than the text after the space; a text without `&amp` becomes just its `_`-to-space version |
| `Artists.DisplayNameAmp` | Qt/mainwindow.cpp:73-75 | after `_` becomes a space, each `&amp` becomes `&`: the name is the pieces between the `&amp`s joined with `&` |
| `Artists.ParseLine` | Qt/mainwindow.cpp:64-77 | the link of every parsed artist holds neither `"` nor a space, and the name holds no `_` |
| `Artists.SpacedLines` | Qt/mainwindow.cpp:63-67 | a line is kept exactly when it is one of the lines and holds a space; every kept line holds a space, and there are no more of them than lines |
| `Artists.SpacedLinesAppend` | Qt/mainwindow.cpp:63-67 | the lines kept from a concatenation are those kept from each part, in order |
| `Artists.ParseAll` | Qt/mainwindow.cpp:63-80 | at most one artist per line |
| `Artists.ParseAllSpaced` | Qt/mainwindow.cpp:61-80 | one artist per line holding a space, the j-th one parsed from the j-th such line, and no other artist |
| `Artists.ParseAllStep` | Qt/mainwindow.cpp:63-79 | one more line adds its artist at the end when it holds a space, and nothing otherwise |
| `Artists.ParseAllAppend` | Qt/mainwindow.cpp:63-80 | the artists of concatenated line lists are the artists of each list, in order |
| `Artists.ParseResult` | Qt/mainwindow.cpp:57-82 | the loop over the lines of the text returns exactly `ParseAll` of its `\n`-split lines |
| `Artists.CountFirst` | Qt/mainwindow.cpp:150-157 | no key is counted more often than there are artists |
| `Artists.CountFirstPositive` | Qt/mainwindow.cpp:150-157 | a key has a non-zero count exactly when some artist's name starts with it |
| `Artists.TallyFirstChars` | Qt/mainwindow.cpp:145-157 | the map's keys are exactly the `left(1)` values of the names; each count is the number of artists with that first character; the counts sum to the number of artists |

## Left out

- Allocation failure. The `std::bad_alloc` handlers and their `std::cerr`
  logging (stack.h:29-33, 51-55, 69-73, 247-250) are not modelled: allocation
  always succeeds in Dafny.
- The destructor (stack.h:79-82). Dafny manages memory itself.
- `operator->` of the three cursors (stack.h:309-311, 405-408, 505-508). It
  returns `&stack_`, which has the wrong type.
- Default-constructed cursors (stack.h:289, 386, 496). They hold a null pointer
  that can only be assigned or compared.
- The unused `top_` field of the cursors.
- Raw pointer arithmetic. Cursors hold a buffer and an integer offset instead.
- The `static_cast<T>` conversion in the range constructor and `fill`. The
  input has the element type.
- Inverted or non-subtractable iterator ranges. Ranges are given as a `seq`,
  so they cannot be inverted.
- `QtStrings.ReplaceAllJoin`: it is proved only for a pattern with no proper border. Only for such a pattern do pattern-free parts joined with it fix the parts uniquely. For other patterns, occurrences can overlap, and the scan may split the join differently. The parser's only pattern, `&amp`, has no proper border (`QtStrings.AmpUnbordered`).
- `Stacks.Stack.Pop`: returns the popped element by value, not as a reference to
  its slot.
- `Stacks.Stack.Top`: returns the element by value. Writing through the
  reference `top()` returns is not modelled.
- Stream output of an element. `Stacks.Stack.Print` takes `show` for
  `os << element`, and `std::endl` is the character `\n` (its flush is I/O).
- Qt/mainwindow.cpp outside `parseResult` and the tally loop is UI, network or
  charting: `downloadFile`, `loadArtists`, `showMainWindow`, the chart parts of
  `createPieGraph`, and `createVsGraph`.
- UTF-16. A `QString` is a sequence of UTF-16 code units, while the model's `string` is a sequence of Unicode characters. The two differ only for characters outside the Basic Multilingual Plane. For those, `left(1)` (Qt/mainwindow.cpp:151) returns half of a surrogate pair, while `QtStrings.Left1` returns the whole character.
- The `toLatin1`/`fromUtf8` round trip (Qt/mainwindow.cpp:77). It is character
  encoding and is taken as the identity.
- The key order of `QMap`, which later decides the order of the pie slices.
  A Dafny `map` has no order.
- `Artist::createArtistHyperLink` (Qt/artist.cpp:21-31) builds a `QLabel`,
  which is UI.
- The test fixtures of main.cpp: `doubleCustom`, `userCustom` and the
  predicate functors.
