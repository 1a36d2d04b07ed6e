# A model of suil's codecs, templates and lock

suil is a C++ library for network services. This project models the parts of it whose correctness is
more than plumbing, in Dafny, and proves what they are for:

- **Mustache templates** (`Mustache*.dfy`). A template is compiled by a scanning loop to two parallel
  arrays, and rendered by an index that jumps over blocks and re-enters them. The accepted texts are
  characterised by a grammar. The reference for rendering is an interpreter of block trees; compiling
  text and running the arrays is proved to be interpreting the tree, for exactly the sections whose
  tags reuse the section's name harmlessly. What escaping writes is stated by the way back. Lookup of
  keys and rendering of partials are arbitrary functions.
- **JSON** (`Utf8.dfy`, `Json*.dfy`). Text, the two printers and the parser are functions on bytes,
  related by round trips that say exactly when they hold, and by a grammar over literal characters that
  gives every text its meaning. The linked node tree, its four operations, the checker, the printers that walk it and the
  parser that builds it are heap programs proved against those functions. Nodes are made in and freed
  from a heap that knows which of them are live.
- **Base58** (`Radix.dfy`, `Base58.dfy`). Radix conversion with leading zeros, the checksum frames of
  keys and addresses, and the sizes of the fixed buffers.
- **Ticket lock** (`TicketLock.dfy`). A step relation over any number of processes; safety of all
  runs, the exact bound that the `int` ticket imposes, and a refinement of a queue.
- **Wire serialisation** (`WireFormat.dfy`, `Breadboard.dfy`). Schemas and values, their bytes, and
  the bounded board they are pushed to and pulled from.
- **Output buffer and base64** (`OBuffer.dfy`, `Base64.dfy`). Growth with its amortised cost, and the
  codec loops that write into the buffer's memory.

A method is proved against a function of its inputs or of the old state; the lemmas are about those
functions. Bytes are integers below 256, so masks and shifts are written as division and remainder.
C strings are sequences without NUL: the byte at their length is the terminator and reading beyond it
cannot be expressed. Exceptions are results (`ok == false`, `Thrown`, a status).

Where the code does something other than its shape suggests, the model follows the code:

- A block ends at the first action that bears its name, of any kind (`suil/mustache.cpp:363`).
- A section whose value is neither empty nor an array re-enters at its own index
  (`suil/mustache.cpp:338`), so it prints its opening fragment twice and runs its body outside.
- A comment drops the two characters after its last one unseen (`suil/mustache.cpp:100-108`).
- Names are compared up to a NUL, and `strchr` takes NUL for a name character.
- Byte 0x1F is printed as it is (`suil/json.cpp:1142`) and rejected on input (`suil/json.cpp:837`).
- NUL counts as digit 58 in base58, and the checksum test of an address covers its own last bytes
  (`suil/crypto.cpp:27`, `suil/crypto.cpp:610`), unlike the checksum that is written.
- Fields marked `unwire` are filtered one way in records and the other way in meta types
  (`suil/wire.h:116`, `suil/wire.h:378`).
- `bseek` refuses the end of the capacity (`suil/buffer.cpp:161`).

## Model

| member | source | states |
|---|---|---|
| MustacheTemplate.BalancedIsTree | suil/mustache.cpp:58-94 | Every balanced, renderable action list is the compilation of a block tree with nothing left over; the tree is a result |
| MustacheTemplate.CloseMatchesOpener | suil/mustache.cpp:67-88 | In a balanced list every CloseBlock points back at an OpenBlock or ElseBlock of the same name, and returns to exactly the blocks that were open before it |
| MustacheTemplate.OpenersAreReal | suil/mustache.cpp:59-65 | Whatever is open at any point was opened by an OpenBlock or ElseBlock inside the blocks that enclose it |
| MustacheTemplate.SameNameIs | suil/zstring.cpp:158-164 | Two names are the same if and only if they are as long as each other and equal, or equal up to a NUL in the same place |
| MustacheRenderer.WalkIsTree | suil/mustache.cpp:254-368 | Wherever reuse of names is harmless, walking the cells of a tree by index writes what the recursive interpreter writes and goes on behind them, or throws where it throws; under a stop name that the tree bears, it may stop earlier, where everything has been written |
| MustacheRenderer.EachIsTree | suil/mustache.cpp:328-335 | Re-entering the body once per element by resetting the index is running the body tree once per element, and leaves the index where nothing of the section is left |
| MustacheRenderer.OnceIsTree | suil/mustache.cpp:336-342 | A section whose value is neither empty nor an array prints the fragment before its opening tag a second time, runs its body in the surrounding context and goes on behind, or stops inside where nothing is left of it |
| MustacheRenderer.RenderSpanned | suil/mustache.cpp:370-375 | Rendering any template that is the compilation of a tree whose reuse of names is harmless equals interpreting that tree and then the last fragment |
| MustacheRenderer.RenderIsTree | suil/mustache.cpp:254-375 | For every balanced action list whose reuse of section names is harmless, every context, lookup and partial function: the flat renderer writes, or throws after writing, exactly what the tree interpreter does |
| MustacheRenderer.ReuseStopsEarly | suil/mustache.cpp:363-364 | `{{#a}}{{a}}x{{/a}}` on a one-element array prints only `x`: a tag that reuses the name ends the section |
| MustacheRenderer.ReuseTree | suil/mustache.cpp:363-364 | The tree of that same template prints `truex`, so some hypothesis on reuse is needed |
| MustacheReuse.SectionsFaithfulIffHarmless | suil/mustache.cpp:314-375 | The sections of a template, each taken by itself, are rendered as their trees in every context, under every lookup and partial, if and only if all reuse of names is harmless: a section first meets its own name in a comment, if at all, with nothing but comments up to its closing tag |
| MustacheReuse.FaithfulIsHarmless | suil/mustache.cpp:314-368 | A section that is rendered as its tree in every context and under every lookup reuses its name harmlessly |
| MustacheReuse.StopsAtOwnClose | suil/mustache.cpp:354-368 | The walk of a section body never stops before the section's own closing tag, whatever the context and lookup, if and only if no tag inside, at any depth and of any kind, bears the section's name |
| MustacheReuse.GuardedReuse | suil/mustache.cpp:354-368 | In `{{a}}{{#a}}{{a}}x{{/a}}` the reuse is not harmless, and yet the whole template is always rendered as its tree: the first tag throws whenever the section would run |
| MustacheRenderer.ListsAsIntended | suil/mustache.cpp:322-340 | As long as the sections met have empty values or arrays, the code does what a section is meant to do |
| MustacheRenderer.AsIntendedIffSafe | suil/mustache.cpp:336-339 | A template behaves as intended under all contexts and lookups exactly when no fragment precedes a section's opening tag and sections hold only comments |
| MustacheRenderer.EmptyValues | suil/json.cpp:1424-1434 | Empty are a missing key and exactly null, false, the empty string, the empty array and the empty object |
| MustacheEscape.UnescapeInvertsEscape | suil/mustache.cpp:228-244 | A reader that knows the six entities, by a literal table, gets every string back from its escaped text, which has none of the characters < > " ' / and no ampersand but at the start of an entity |
| MustacheEscape.EscapeIsOnly | suil/mustache.cpp:228-244 | A text is the escaped text of a string if and only if it is inert in that sense and reads as the string |
| MustacheEscape.TagWrites | suil/mustache.cpp:268-302 | On a string, a tag writes exactly the inert text that reads as the string, and an unescaped tag exactly the string |
| MustacheEscape.RendersValue | suil/mustache.cpp:158-302 | Compiled and rendered, a text with one tag on a string, however the tag is spaced or spelled, becomes that text with the inert text that reads as the string in place of the tag, or with the string itself behind `&` and in three braces |
| MustacheParser.ReadTagAppends | suil/mustache.cpp:25-156 | Reading a tag appends exactly one action, taken from between the two cursors, and moves the vector of open blocks by one push, one matching pop, or not at all |
| MustacheParser.TagKeepsInv | suil/mustache.cpp:166-178 | Fragments and actions stay interleaved and in bounds, and the block vector stays the stack that the action list itself determines |
| MustacheParser.AcceptedIsWellFormed | suil/mustache.cpp:158-204 | Every accepted text compiles to in-bounds, source-ordered, interleaved and balanced arrays with at most one fragment more than actions, and every ElseBlock is followed by a CloseBlock |
| MustacheGrammar.ReadsMark | suil/mustache.cpp:25-156 | Every tag of the language, with white space wherever it may stand, two braces or three, or a comment cut short by the end of the text, is read whole, with its name's bounds and the position of the block it closes |
| MustacheGrammar.MarkRead | suil/mustache.cpp:25-156 | Every tag that the reader accepts is a tag of the language |
| MustacheGrammar.CompilesSource | suil/mustache.cpp:158-204 | Whatever the language spells is accepted, and the arrays hold just the texts, tags and names that are spelled |
| MustacheGrammar.AcceptsTemplates | suil/mustache.cpp:25-204 | The compiler accepts a text if and only if it is a template: plain texts and tags in turn, blocks that nest by name, inverted sections without tags |
| MustacheNames.NameCompiles | suil/mustache.cpp:30-56 | A tag whose name is a letter or underscore and then letters, digits and underscores, in partials also slashes and dots, compiles to one action of its kind with that name; the characters are given by literal strings |
| MustacheNames.SectionCompiles | suil/mustache.cpp:59-96 | A section or inverted section of such a name compiles to its two tags, the second pointing back at the first |
| MustacheNames.NameRejected | suil/mustache.cpp:30-56 | A template is rejected, whatever follows, if a tag's name begins with any other visible character, or goes on with one other than a closing brace |
| MustacheSource.CompilesTree | suil/mustache.cpp:158-204 | A text that spells a tree, however its tags are spaced, is compiled to exactly that tree and tail |
| MustacheSource.AcceptedSpellsTree | suil/mustache.cpp:158-204 | Every accepted text spells the tree that its action list stands for |
| MustacheSource.RenderSource | suil/mustache.cpp:158-375 | Compiling any text that spells a tree whose reuse of names is harmless, and rendering the arrays, is interpreting the tree |
| MustacheSource.CompileInvertsPrint | suil/mustache.cpp:158-204 | The text of every printable template tree, with any tail, is accepted and compiled to exactly that tree and tail |
| MustacheSource.RenderPrinted | suil/mustache.cpp:158-375 | Printing a tree whose reuse of names is harmless, compiling the text and rendering the arrays is interpreting the tree |
| MustacheEngine.Cursor.EatSpace | suil/mustache.h:96-99 | The cursor stops where the specification's white-space scan stops |
| MustacheEngine.Cursor.ToLastIndex | suil/mustache.cpp:30-56 | Reads a name and two closing braces as the specification does, or reports the exception |
| MustacheEngine.Mustache.ReadTag | suil/mustache.cpp:25-156 | The in-place tag reader succeeds exactly when the specification accepts, and leaves its arrays, stack and cursor |
| MustacheEngine.Mustache.Parse | suil/mustache.cpp:158-204 | The scanning loop accepts exactly the texts the specification accepts and leaves the specified fragments and actions |
| MustacheEngine.Mustache.RenderFragment | suil/mustache.cpp:246-252 | Appends the text of the fragment and nothing else |
| MustacheEngine.Mustache.EscapeTo | suil/mustache.cpp:228-244 | Appends the HTML-escaped characters of the value |
| MustacheEngine.Mustache.RenderVariable | suil/mustache.cpp:268-302 | Writes booleans, numbers and strings, escaped or not, and throws on anything else |
| MustacheEngine.Mustache.RenderTag | suil/mustache.cpp:254-352 | One action writes the specified output and leaves the index where the specification says, or throws with what was written before |
| MustacheEngine.Mustache.RenderEachElement | suil/mustache.cpp:328-335 | The element loop writes the body for every element and leaves the index of the last round |
| MustacheEngine.Mustache.RenderInternal | suil/mustache.cpp:354-368 | The main loop appends exactly the specified walk, without an out-of-range fragment or action |
| MustacheEngine.Mustache.Render | suil/mustache.cpp:370-375 | Rendering terminates on every template the compiler accepts and every context, and appends exactly the specified output |
| Utf8.ValidateString | suil/json.cpp:181-192 | The validation loop accepts exactly the strings made of valid characters, reading no byte behind the terminator |
| Utf8.WriteThenRead | suil/json.cpp:201-274 | A written scalar value is valid in front of any text and reads back (section 4 of RFC 3629) |
| Utf8.ReadThenWrite | suil/json.cpp:126-274 | A valid character is the one encoding of the scalar value it reads as |
| Utf8.ReadInvertsWrite | suil/json.cpp:201-274 | Reading the characters of a written sequence of non-zero scalar values recovers the sequence |
| Utf8.WriteInvertsRead | suil/json.cpp:201-274 | Writing what was read from a valid string gives back its bytes |
| Utf8.ValidIffEncoding | suil/json.cpp:126-274 | A NUL-free string is valid if and only if it is the encoding of a sequence of non-zero scalar values, which is then the one that reading gives |
| Utf8.JoinInvertsSplit | suil/json.cpp:279-304 | Joining the surrogate pair of a supplementary code point gives the code point (section 2 of RFC 2781) |
| Utf8.SplitInvertsJoin | suil/json.cpp:279-304 | An accepted pair is the split of what it joins to |
| JsonNumber.ValidIffNumber | suil/json.cpp:1200-1203 | The validity check accepts exactly the grammar of section 6 of RFC 8259, stated by cutting the text into parts |
| JsonNumber.NumberText | suil/json.cpp:888-934 | What the number parser consumes is always a text of the grammar |
| JsonNumber.ReadsNumber | suil/json.cpp:888-934 | A text of the grammar is consumed to its end in front of anything that cannot continue it |
| JsonNumber.ScanNumber | suil/json.cpp:888-934 | The cursor version agrees with the specification, stays in front of the terminator, and does not move on failure |
| JsonString.HexRoundTrip | suil/json.cpp:1221-1264 | Four written hexadecimal digits read back as the number |
| JsonString.PieceRoundTrip | suil/json.cpp:1085-1173 | One printed character parses back to the same bytes; byte 0x1F alone does not |
| JsonString.StringRoundTrip | suil/json.cpp:763-876 | Parsing the printout of a valid string gives the string exactly when it has no byte 0x1F, and is rejected otherwise |
| JsonString.ParsedIsValid | suil/json.cpp:763-876 | Every parsed string is valid UTF-8 without NUL |
| JsonText.ValueRoundTrip | suil/json.cpp:593-761 | In front of any text that cannot continue a number, a printed tree parses to the tree and leaves that text, in either layout and at any depth |
| JsonText.DecodeOfEmit | suil/json.cpp:341-357 | What decoding any printout yields: rejected if a string or key holds 0x1F, otherwise the tree, with null for numbers that JSON lacks |
| JsonText.DecodeInvertsEmit | suil/json.cpp:944-1074 | Decoding inverts printing for exactly the trees without 0x1F and with JSON numbers only; order and duplicate keys included |
| JsonText.LayoutsAgree | suil/json.cpp:971-1074 | The compact and the indented printout, at every level and with any white-space indent, decode alike |
| JsonText.ParsedIsSound | suil/json.cpp:593-876 | Every tree the parser accepts has valid strings, keys on exactly the object members, and numbers of the grammar |
| JsonText.ReencodeRoundTrip | suil/json.cpp:341-357 | Printing and decoding again a decoded tree gives the same tree unless a string holds 0x1F |
| JsonGrammar.DecodesMeaning | suil/json.cpp:341-357 | For every text and tree: decoding yields the tree if and only if the text denotes it by the grammar of sections 2 to 7 of RFC 8259, stated by derivations with their meanings (without the escape of code 0) |
| JsonGrammar.AcceptsJsonTexts | suil/json.cpp:341-357 | The accepted texts are exactly the texts of the grammar |
| JsonGrammar.OneMeaning | suil/json.cpp:593-876 | No text has two meanings, so what the parser returns is the only reading there is |
| JsonGrammar.HexDigitsRead | suil/json.cpp:1221-1248 | The v-th character of "0123456789abcdef" and of "0123456789ABCDEF" is read as v, and the latter is what is written for v |
| JsonGrammar.MixedDigits | suil/json.cpp:1221-1248 | Four hexadecimal digits in either case, or mixed, are read as the number they spell by their positions in those strings |
| JsonShortest.CompactIsShortest | suil/json.cpp:944-1173 | The compact printout of a decoded value without 0x1F means the value, and no text of the grammar that means it is shorter |
| JsonShortest.PieceIsShortest | suil/json.cpp:1085-1173 | No spelling of a character of a literal is shorter than the one that is printed |
| JsonGrammar.ReadsPhrase | suil/json.cpp:593-761 | A grammatical value is read to its end in front of any text that cannot continue a number, and gets its meaning |
| JsonGrammar.ReadsPiece | suil/json.cpp:782-851 | Every character of a literal, plain, escaped, by code or by surrogate pair, is read as the bytes it means |
| JsonLinks.AppendKeepsInv | suil/json.cpp:506-517 | Appending keeps the head, tail, sibling, parent and key invariant of every node |
| JsonLinks.PrependKeepsInv | suil/json.cpp:519-530 | Prepending keeps the invariant of every node |
| JsonLinks.RemoveKeepsInv | suil/json.cpp:571-591 | Detaching keeps the invariant of every node |
| JsonLinks.AttachedOk | suil/json.cpp:571-591 | A node with a parent hangs exactly where its parent's list of children says |
| JsonLinks.RemoveInvertsAppend | suil/json.cpp:506-591 | Removing a node that was just appended restores every link of every node |
| JsonNode.LinkLast | suil/json.cpp:506-517 | The assignments at the end of a list: the new links of the parent, the child and the former last child, and nothing else |
| JsonNode.AppendNode | suil/json.cpp:532-560 | Attaching in place changes all nodes as the append of the specification does; the children become the old ones and the new node |
| JsonNode.PrependNode | suil/json.cpp:519-569 | The same at the front |
| JsonNode.Unlink | suil/json.cpp:571-591 | The assignments of detaching, including both siblings |
| JsonNode.RemoveFromParent | suil/json.cpp:571-591 | Detaching in place is removal in the specification, and nothing at all for a root |
| JsonCheck.Check | suil/json.cpp:1266-1334 | On any finite set of nodes, right or wrong, from any node that is not its own ancestor by parent links: walks and descent end, even on lists and heads that run in circles, and the result is true exactly when links spell out lists with matching parents, siblings, heads, tails and keys, all the way down, no node is met below itself, and all strings are valid |
| JsonCheck.CheckChildren | suil/json.cpp:1288-1329 | The loop over one list accepts exactly the intact ones |
| JsonCheck.NotVisited | suil/json.cpp:1304-1324 | The node behind one that passes the tests has not been visited yet, so lists that run in circles are reported and not followed |
| JsonCheck.PathDown | suil/json.cpp:1312-1322 | A child whose parent link names the node above it, as the test before the descent requires, extends the path of distinct ancestors; so a descent that runs in a circle meets a failing test |
| JsonCheck.RingPassesTests | suil/json.cpp:1304-1322 | Two lists that contain each other pass every test of the walk: without the hypothesis on the start node the descent need not end |
| JsonCheck.ListUnique | suil/json.cpp:1288-1329 | Links spell out one list only |
| JsonCheck.IntactIffValid | suil/json.cpp:1266-1334 | Where the structural invariant holds, the check is about the strings only |
| JsonCheck.TreePasses | suil/json.cpp:1266-1334 | Every tree of its own starts from a node that is not its own ancestor, and passes exactly when its strings are valid |
| JsonCheck.ParsedPasses | suil/json.cpp:341-357 | Every tree the parser returns passes the check |
| JsonTree.EmitStringTo | suil/json.cpp:1076-1176 | The string printer writes the specified literal, or reports invalid UTF-8 before writing |
| JsonTree.EmitValueTo | suil/json.cpp:944-1048 | The compact printer, walking the links, writes the printout of the value that the nodes stand for |
| JsonTree.EmitIndentedTo | suil/json.cpp:971-1074 | The indented printer writes the indented printout of that value |
| JsonDelete.NotBelowItself | suil/json.cpp:359-382 | No node is among its own descendants |
| JsonDelete.SiblingsApart | suil/json.cpp:359-382 | The trees of two siblings have no node in common, so no node is freed twice |
| JsonNode.Heap.Free | suil/json.cpp:359-382 | Freeing needs a live node, and takes just that node out of the live ones |
| JsonDelete.Delete | suil/json.cpp:359-382 | Deletion frees exactly the nodes of the subtree, each once while it is live; all others keep parent, key and children, except that the parent loses this one child, and the invariant holds for what is left |
| JsonParser.SB.Grow | suil/json.cpp:64-78 | Doubling ends with the room asked for, keeping what was written |
| JsonParser.ScanHex16 | suil/json.cpp:1221-1248 | Reads four digits, or fails without moving |
| JsonParser.ScanUnicode | suil/json.cpp:809-832 | Escapes and surrogate pairs, with NUL and broken pairs rejected |
| JsonParser.ScanPiece | suil/json.cpp:782-851 | One character is decoded into at most four bytes of the buffer, exactly as specified |
| JsonParser.ScanString | suil/json.cpp:763-876 | The loop with a growing buffer reads what the specification reads; no write leaves the allocation |
| JsonParser.SkipString | suil/json.cpp:763-876 | The four-byte scratch buffer of the validating mode suffices, and accepts the same strings |
| JsonParser.Attach | suil/json.cpp:663-705 | A finished child is appended to the collection under construction, whose nodes stay one tree |
| JsonParser.ParseKidsAt | suil/json.cpp:663-761 | The loop over elements or members builds the children that the specification parses |
| JsonParser.ParseValueAt | suil/json.cpp:593-661 | Recursive descent agrees with the specification, never reads behind the NUL and does not move on failure; the live nodes are those of before and the nodes of the new tree, or on failure just those of before |
| JsonParser.DecodeText | suil/json.cpp:341-357 | Accepts exactly the specified texts; the nodes made stand for the decoded value and are one tree in good order, and a rejected text leaves the live nodes as they were |
| JsonParser.ValidateText | suil/json.cpp:384-397 | Accepts exactly what decoding accepts, and makes no nodes |
| Base58.AlphabetIs | suil/crypto.cpp:18-24 | The characters of the text are exactly the ASCII digits and letters other than 0, I, O and l |
| Base58.AlphabetAscends | suil/crypto.cpp:18-24 | They are in ascending order, which leaves one alphabet |
| Base58.DigitOfChar | suil/crypto.cpp:21-31 | Decoding an encoded digit gives the digit |
| Base58.Digit | suil/crypto.cpp:26-31 | The search of the alphabet gives a digit below 58 for its characters, 58 for NUL and -1 otherwise |
| Base58.TextKeepsValue | suil/crypto.cpp:37-79 | The text has the value of the bytes, and one leading '1' for each leading zero byte, no more |
| Base58.TextReadsBack | suil/crypto.cpp:37-117 | Value and leading ones of the text determine the bytes, and give them back |
| Base58.TextInjective | suil/crypto.cpp:37-79 | Different byte strings have different texts |
| Base58.TextOfValue | suil/crypto.cpp:37-117 | Every NUL-free text in the alphabet is the text of the bytes it reads as |
| Base58.KeyFits | suil/crypto.cpp:359-362 | 256^38 <= 58^52, so 38 bytes fit the 53-byte buffer |
| Base58.TextLength | suil/crypto.cpp:348-406 | Texts of 38-byte frames have at most 52 characters, those of up to 25 bytes at most 35 |
| Base58.EncodeBase58 | suil/crypto.cpp:37-79 | Filling from the back gives the text and its terminator at the end of the buffer, and fails exactly when they do not fit; nothing behind the buffer length is written |
| Base58.RawDecode | suil/crypto.cpp:85-117 | Multiply-and-add accepts exactly the readable texts and computes their value |
| Base58.EncodeKey | suil/crypto.cpp:348-381 | The result is the text of version, key, mark and checksum |
| Base58.DecodeKey | suil/crypto.cpp:408-494 | Accepts exactly texts of 38-byte numbers with the version and a matching checksum; the target is written only then, with the key bytes |
| Base58.KeyRoundTrip | suil/crypto.cpp:348-494 | For every checksum function a private or public key comes back from its text |
| Base58.CanonicalText | suil/crypto.cpp:348-494 | An accepted text is the text of the key it decodes to if and only if it has no NUL and no leading '1' and, for private keys, the mark is 1 |
| Base58.EncodeAddress | suil/crypto.cpp:397-406 | The result is the text of version, hash and fresh checksum, in at most 35 characters |
| Base58.DecodeAddress | suil/crypto.cpp:576-619 | Too long, unreadable or too big texts leave the target alone; otherwise it is the number padded with zero bytes in front, and with `vcs` the checksum of all 25 bytes must equal the last four |
| Base58.AddressRoundTrip | suil/crypto.cpp:397-619 | Every address decodes, without `vcs`, to its version and hash, leading zero bytes included |
| Radix.RepLength | suil/crypto.cpp:58-62 | A number has at most k digits if and only if it is below the k-th power of the radix |
| Radix.NumConcat | suil/crypto.cpp:45-62 | Digits in front count multiples of the power of the radix that the digits behind them span |
| TicketLock.Conversions | suil/worker.cpp:449-461 | Truncation keeps the counter modulo 2^32 in the range of an `int`, and widening keeps the ticket modulo 2^64 |
| TicketLock.Counts | suil/worker.cpp:449-481 | Taking a ticket and unlocking count on by one, and wrap around only at 2^64 |
| TicketLock.TicketMatches | suil/worker.cpp:452-461 | Truncated to `int` and widened again, a ticket equals the served counter only in its own turn, and only below 2^31 |
| TicketLock.LiveBound | suil/worker.cpp:449-481 | No more tickets are live than there are processes |
| TicketLock.StepKeepsInv | suil/worker.cpp:423-481 | Every step of an uncancelled lock keeps: live tickets are exactly Serving..Next-1, one process each; whoever is inside has the served ticket; entries are in ticket order |
| TicketLock.RunsAreSafe | suil/worker.cpp:423-481 | Every run of any number of processes is safe as long as at most 2^32 processes exist or at most 2^32 tickets have been issued |
| TicketLock.TrySucceeds | suil/worker.cpp:461 | The comparison succeeds exactly for the first in the queue, while its ticket is below 2^31 |
| TicketLock.QueueRefined | suil/worker.cpp:423-481 | Every step is a step of a first-come-first-served queue lock, or none: taking joins at the end, the first acquires, the first leaves |
| TicketLock.FirstGetsIn | suil/worker.cpp:461-470 | Below 2^31 served tickets the first in the queue can always get in by at most two steps of its own |
| TicketLock.Exhausted | suil/worker.cpp:452-461 | From any state with 2^31 acquisitions that satisfies the invariant, no run of an uncancelled lock in bounds gets anybody in again |
| TicketLock.Reaches | suil/worker.cpp:449-481 | For every number of rounds up to 2^31 a run from the start ends with all processes idle after that many acquisitions |
| TicketLock.ExhaustionIsReal | suil/worker.cpp:452-461 | With one process or more a run from the start uses up the lock |
| TicketLock.RunsExhaust | suil/worker.cpp:452-461 | In every run of an uncancelled lock in bounds from the start, after 2^31 acquisitions nobody is inside again |
| TicketLock.AcquiredAtMost | suil/worker.cpp:452-461 | No run of an uncancelled lock in bounds from the start ever has more than 2^31 acquisitions |
| TicketLock.CrowdBreaksExclusion | suil/worker.cpp:452-461 | With 2^32 + 1 processes there is a run that ends with two of them inside |
| TicketLock.ExclusiveIffFew | suil/worker.cpp:423-481 | An uncancelled lock excludes in every run if and only if there are at most 2^32 processes |
| TicketLock.CancelledGetsIn | suil/worker.cpp:430-470 | After cancelling, every waiting process can get in by at most two steps of its own |
| TicketLock.CancelBreaksExclusion | suil/worker.cpp:430-432 | After cancelling, a run of two processes ends with both inside |
| WireFormat.LeRoundTrip | suil/wire.h:83-110 | A little-endian scalar reads back |
| WireFormat.VarRoundTrip | suil/wire.h:26-42 | A length byte and that many bytes read back as the number, leaving what follows |
| WireFormat.VarCanonical | suil/wire.h:26-42 | What an integer is read from is what would be written for it if and only if its last byte is not a needless zero |
| WireFormat.WireRoundTrip | suil/wire.h:26-204 | Reading any schema, filter and value into any variable gives the value merged into the variable and leaves exactly the following bytes |
| WireFormat.FreshGetsValue | suil/wire.h:26-204 | A fresh variable gets exactly the value written when the filter lets every field through |
| WireFormat.CopyWritesSame | suil/wire.h:112-134 | Whatever the filter holds back, a copy read into a fresh variable is written as the same bytes |
| WireFormat.SelfDelimiting | suil/wire.h:26-204 | Equal streams of one schema start with equal messages and go on equally |
| WireFormat.LeNumConcat | suil/wire.h:83-110 | Bytes further on count multiples of the power of 256 that the bytes before them span |
| WireFormat.VarLayout | suil/wire.h:26-42 | The length byte counts the bytes behind it, which hold the number and are no more than it needs |
| WireFormat.FreshIsZero | suil/wire.h:146-158 | A fresh variable holds nothing but zeros and empty strings and lists |
| WireFilter.DefaultHoldsBackRecords | suil/wire.h:112-122 | With `always == false`, what is written of any value is all of what is left of it without the marked fields of its records, at every depth, and marked fields of meta types included |
| WireFilter.AlwaysHoldsBackMetas | suil/wire.h:374-395 | With `always == true`, it is all of what is left without the marked fields of its meta types, and marked fields of records included |
| WireFilter.MarkedDoNotShow | suil/wire.h:112-122 | Values that differ only in marked fields are written as the same bytes: records with `always == false`, meta types with `always == true` |
| WireFilter.WholeComesBack | suil/wire.h:112-134 | A fresh variable gets exactly the value written, with `always == true` for types without meta types, and with `always == false` for types all of whose records are meta types |
| WireFilter.MarkedAreNotRead | suil/wire.h:124-134 | Reading leaves the marked fields of the variable as they were, in records with `always == false` and in meta types with `always == true`, and gives all others what was written |
| Breadboard.VarInt.Write | suil/varint.h:25-28 | The stored bytes read back as the number |
| Breadboard.VarInt.Length | suil/varint.cpp:21-29 | The shift-and-count loop gives the number of bytes the value needs |
| Breadboard.Board.Forward | suil/wire.h:231-239 | Appends all the bytes exactly when they fit in M-T, otherwise changes nothing; H <= T <= M holds |
| Breadboard.Board.Reverse | suil/wire.h:241-261 | Takes the first bytes exactly when there are as many, otherwise changes nothing |
| Breadboard.Board.PutVar | suil/wire.h:26-32 | Writes the length byte and the bytes, or throws with at most the first written |
| Breadboard.Board.Write | suil/wire.h:44-169 | Succeeds exactly when the whole encoding fits in M-T and then appends exactly that; when it throws, a prefix has been written |
| Breadboard.Board.WriteVector | suil/wire.h:136-144 | The count and then every element |
| Breadboard.Board.Read | suil/wire.h:51-183 | Ends as the specified read does, with the same value and the same bytes left |
| Breadboard.Board.ReadEntries | suil/wire.h:146-158 | The element loop, including the overflow of its `int` counter |
| OBuffer.RunKeeps | suil/buffer.cpp:106-175 | Over any appends and reserves from an empty buffer the contents are the appended bytes, the capacity is a multiple of eight, and all reallocations together moved no more than the capacity |
| OBuffer.AppendsAreLinear | suil/buffer.cpp:106-144 | Appending alone moves at most twice the bytes appended plus seven |
| OBuffer.Buffer.Grow | suil/buffer.cpp:135-144 | Keeps the contents and adds the aligned size |
| OBuffer.Buffer.Append | suil/buffer.cpp:106-117 | Contents, capacity and moved bytes become exactly those of the specification |
| OBuffer.Buffer.Reserve | suil/buffer.cpp:169-175 | Makes room without touching the contents |
| OBuffer.Buffer.AppendHex | suil/buffer.cpp:208-219 | Appends two hexadecimal digits for every byte |
| OBuffer.HexDigits | suil/utils.cpp:231-254 | The digit written for v is the v-th character of the literal digits in the case asked for, and is read as v |
| OBuffer.OnlyHexDigits | suil/utils.cpp:231-240 | No other character is read as a digit |
| OBuffer.HexRoundTrip | suil/buffer.cpp:208-219 | Reading the digits back gives the bytes, in either case |
| Base64.Alphabet | suil/base64.cpp:19 | The characters are those of the literal alphabet in its order, and no other is read |
| Base64.GroupIsRadix64 | suil/base64.cpp:24-38 | The four characters for three bytes are the digits in radix 64 of the number that the bytes are in radix 256 |
| Base64.GroupIsPadded | suil/base64.cpp:40-62 | For fewer bytes the characters are those with zero bytes added, with padding for the ones that say nothing |
| Base64.TextLength | suil/base64.cpp:18-66 | The text has 4*ceil(n/3) characters |
| Base64.ReadInvertsText | suil/base64.cpp:18-135 | For every non-empty byte string, decoding its text gives the bytes |
| Base64.TextInvertsRead | suil/base64.cpp:68-135 | An accepted text of any length is the text of what it decodes to if and only if its length is a multiple of four and its last group is padded as the encoder pads, with no stray bits |
| Base64.WildLength | suil/base64.cpp:90-132 | The remaining length goes below zero only for texts whose length is not a positive multiple of four |
| Base64.Encode | suil/base64.cpp:18-66 | The loop leaves exactly the text as contents of the buffer, and its seek succeeds |
| Base64.DecodeLoop | suil/base64.cpp:90-132 | For texts of every length: the group loop writes the bytes of the specification within three per group, rejects what it rejects, and otherwise ends with the remaining length below zero |
| Base64.Decode | suil/base64.cpp:74-135 | For texts of every length: rejects bad text, and otherwise succeeds exactly when the strict final seek has room; undefined exactly where the remaining length goes below zero or there is no memory to write to |
| Base64.DecodeString | suil/base64.cpp:68-72 | The string form ends in the same way for texts of every length, and succeeds exactly when the decoded length is below the aligned capacity |
| Base64.WrapperInvertsText | suil/base64.cpp:68-135 | The string form's final seek has room for the text of n bytes if and only if n is not a multiple of 24 |

## Left out

- MustacheRenderer.RenderIsTree: harmless reuse is sufficient for whole templates but not necessary, because what comes before a section may keep it from ever running (GuardedReuse); the condition is exact for sections taken by themselves (SectionsFaithfulIffHarmless).
- JsonCheck.Check: the node the check starts from must not be its own ancestor by parent links; otherwise the source may recurse without end (RingPassesTests).
- JsonNumber.ScanNumber: the conversion to a double is not modelled; a number is the text it was read from.
- MustacheEngine.Mustache.RenderVariable: a number is a stored text, so the choice between integer and fractional formatting is not modelled.
- JsonText.Emit: digits of numbers come from a stream; a number is printed as its text, or as null when that is no JSON number.
- JsonDelete.Delete: a freed node is a node that has left the live nodes of the heap; that nothing looks at it afterwards, and the bytes of its strings and key, are not modelled.
- Base58.RawDecode: base 16, which only the key tools use, is left out; big numbers are natural numbers.
- Base64.Decode: nothing is said about the effects where the remaining length goes below zero, which only lengths other than positive multiples of four allow (WildLength), or where a text shorter than four has bytes to write and no memory was allocated; there the code reads or writes outside its buffers.
- OBuffer.Buffer.Append: sizes are below the limit of the 32-bit fields, where the source would wrap around.
- WireFormat.Fresh: a filtered scalar in a fresh record is zero; C++ may leave it indeterminate.
- Breadboard.Board.Read: byte strings that point into the board are copied, so aliasing with it is not modelled.
- Worker processes, timed `spin_lock` calls, signals and shared memory: only the untimed lock is modelled.
- Memory ordering: every atomic access of the lock is one step of an interleaving.
- Mustache partials, the template cache and files: a partial is an arbitrary function of name and context.
- JSON lookup, conversions and the iod templates: lookup is an arbitrary function in the renderer.
- Messages of exceptions and of `json_check`.
- The raw base58 wrappers, hash functions, key generation and signatures: the checksum is an arbitrary function.
- Heapboard ownership, hexadecimal board dumps, and the printf-like appends of the buffer.
- Sockets, HTTP, e-mail, databases, configuration and the other parts of the library.
