# PyNDN in Dafny: name patterns, command authentication, wire format, face locking

This project models the parts of PyNDN whose correctness is hardest to see from one function body, and
proves what they promise for all inputs, all runs and all interleavings. `dafny verify dfyconfig.toml`
checks everything.

## What is modelled

**Name patterns** (`python/ndn/nre.py`). `NamePattern.dfy` defines the language of a pattern tree (`In`,
`Cuts`, `Pieces`), the cuts the repeat search accepts as coded (`Steps`), and the split a search order
picks at every node (`Chosen`): the lexicographically least sequence of piece lengths for `match`, the
greatest for `aggressiveMatch`. `Matchers.dfy` is the tree of matcher objects, whose `matchResult` fields
are overwritten by every attempt, with the four backtracking loops; one class stands for the source's
matcher subclasses and dispatches on `kind`. `PatternText.dfy` says what the constructors make of a text,
`PatternParser.dfy` holds the constructors with their scanning loops and the shared list of groups,
`Brackets.dfy` where a bracket scan stops, `PatternPrinter.dfy` the grammar as a printer, with the proof that the
constructors accept exactly what it prints, `GroupNumbering.dfy` the numbering of groups,
`GroupCaptures.dfy` what each group holds after a match. `NameRegex.dfy` and `RegexMatching.dfy` are the top
level: anchors, primary and secondary matcher, capture extraction. A single component test (`re.match`) is an
arbitrary predicate, the `Oracle`; that `.*` matches every component is an explicit hypothesis where it is used. `sys.maxint` is 2^63 - 1.

**Wire format** (`python/ndn/impl/ndnb.py`, `csrc/methods_name.c`). `Ndnb.dfy`: headers, elements, the stack
decoder, whose printed output is a sequence of events. `NameWire.dfy`: the byte layout of names and the
independent header walk in C. The name functions of libndn are modelled by this layout, with every component
carrying a blob, also an empty one.

**Command authentication** (`csrc/namecrypto/authentication.c`). `Authentication.dfy`: signing, extraction,
freshness, verification and runs of verifications as functions, with HMAC-SHA256 (RFC 2104, section 2) and
SHA-256 as arbitrary functions with 32-byte results and the clock as an input. `CommandAuth.dfy`: the same
operations as the program performs them, on a mutable state struct, name buffers and byte arrays. Where the
source's `assert` on the length fails, or it would read past the component, the verdict is `Aborted`.

**Face lock and run state** (`python/ndn/Face.py`, `csrc/util.c`, `csrc/methods_handle.c`). `RunState.dfy`:
the global linked list. `FaceLock.dfy`: many threads on one face as interleaved steps (`Next`), with runs on
other faces coming and going; adding and clearing an entry are the functions the list methods are proved
against.

**Numbers in bytes** (`Segmenting.dfy`): segment numbers, segmenting, interest lifetimes in exact arithmetic.

## Results that are not plain agreement

- The freshness test casts a microsecond difference to a 32-bit int. It is exact below 2^31 microseconds
  (`FreshExact`); in general it accepts any difference close to a multiple of 2^32 microseconds
  (`FreshModulo`), so a command 2^32 microseconds old, about 71.6 minutes, passes for every smaller delay
  (`FreshWraps`). It agrees with the intended test iff the difference is inside the window or outside that of
  every other multiple (`FreshAgrees`).
- The code fails "a refused command leaves the stored state alone". The state moves before the MAC is compared:
  a call moves it iff it has a key, its authenticator is well-formed and symmetric, and its state is newer and
  fresh, whatever its MAC (`VerifyStep`). So every such command with any wrong MAC is refused with
  `VerificationFailed` and still raises the stored sequence (`ForgedMovesState`).
- Over any run the stored sequence ends as the maximum of the first one and those of the keyed, well-formed and
  fresh calls, genuine or forged (`StoredIsMaximum`). Replay protection survives this: accepted sequences still
  strictly increase (`NeverAcceptedTwice`). Availability does not: after one fresh forged command with sequence
  2^32 - 1 no later call is accepted (`ForgedLocksOut`). A genuine command in any run is accepted iff it is newer
  than that maximum so far (`GenuineInAnyRun`).
- A genuine command is accepted iff it is newer and fresh (`SignedVerdict`), given at least one name component
  (`BareAuthenticatorRefused`) and an application name below 65536 bytes (`LongAppNameAborts`).
- After 2^32 commands the signer's counter is 0 and its command is refused by every verifier state
  (`WrappedRefused`).
- The locking discipline is safe exactly under its assumption: if a thread other than the runner begins a
  call while a run executes, a continuation exists in which it releases a lock it does not own
  (`UndisciplinedIsUnsafe`); on every face with two threads one such call is enough (`OneCallIsEnough`).
- The no-deadlock result (`Progress`) is about operations that dispatch no callbacks. A blocking `get` outside any
  run holds the lock without an entry in the list; an operation begun in a callback it dispatches would test for a
  run, find none and wait for the lock of its own thread.
- Segment numbers from 2^56 on do not survive `num2seg` and `seg2num` (`SegmentRoundTrip`).
- The expression `$` alone is an error, like the empty one: indexing the empty rest raises.
- `Wrapper` in `python/ndn/impl/segmenting.py:15-20` uses the name `pyndn`, while the file imports only `math` and
  `ndn`: as written the class raises. The model follows the evident intent, `ndn`.
- The comment above `verifyCommandSymm` speaks of seconds; the code compares milliseconds, and so does the model.

## Model

| member | source | states |
|---|---|---|
| NamePattern.RepeatSearchAgrees | python/ndn/nre.py:447-487 | the repeat search from 0 repetitions accepts exactly "between min and max pieces" on nonempty slices, bodies that take the empty slice included, and the empty slice iff min is 0 |
| NamePattern.SetTakesOne | python/ndn/nre.py:230-253 | a component set takes slices of one component only |
| NamePattern.SetComplement | python/ndn/nre.py:246 | a negated set takes exactly the components its positive one refuses |
| NamePattern.SetUnion | python/ndn/nre.py:237-244 | a set over two lists of expressions takes what either list takes |
| NamePattern.SetOfOne | python/ndn/nre.py:134-148 | the set without expressions takes nothing, the empty expression everything, any other one what it matches |
| NamePattern.RepeatOnce | python/ndn/nre.py:447-487 | repeated exactly once a pattern takes the same nonempty slices, repeated zero times only the empty slice |
| NamePattern.GroupLanguage | python/ndn/nre.py:255-271 | a group accepts what its one pattern list accepts |
| NamePattern.StepsArePieces | python/ndn/nre.py:462-487 | every run of the repeat search is a textbook cut with between min and max pieces |
| NamePattern.PiecesGiveSteps | python/ndn/nre.py:462-487 | every textbook cut of a nonempty slice becomes a run of the search once its empty pieces are moved to the front |
| NamePattern.EmptiesFirst | python/ndn/nre.py:479-487 | empty pieces first, then the nonempty ones, is an accepted run from any repetition count that leaves room |
| NamePattern.DropEmptyPieces | python/ndn/nre.py:479-487 | dropping empty pieces leaves a cut, and if any was dropped the body takes the empty slice |
| NamePattern.ChosenIsIn | python/ndn/nre.py:34-66 | a slice with a chosen split is in the language |
| NamePattern.ChosenExists | python/ndn/nre.py:60-66 | every slice in the language has a split chosen by either search order, at every node of the tree |
| NamePattern.ChosenUnique | python/ndn/nre.py:96-102 | a search order determines the whole split |
| NamePattern.CutsTake | python/ndn/nre.py:60-66 | the first piece length that works, with the best cut of the rest, is the best cut of the list in that order |
| NamePattern.StepsTake | python/ndn/nre.py:522-530 | the same for the iterations of a repeat |
| NamePattern.FirstPiece | python/ndn/nre.py:45-102 | the lazy search's first piece is the shortest any cut starts with, the longest-first search's the longest |
| NamePattern.FirstIteration | python/ndn/nre.py:447-530 | the same for the first iteration of a repeat |
| Matchers.ComponentMatcher.Match | python/ndn/nre.py:127-154 | the test's verdict, and the capture it leaves |
| Matchers.Matcher.MatchOne | python/ndn/nre.py:230-253 | a component set accepts exactly one component, in or out of the listed expressions |
| Matchers.Matcher.Match | python/ndn/nre.py:34-43 | lazy search: verdict is membership in the language; on success the captures of the whole tree are those of the least split, on failure the own capture is empty; a repeat on the empty slice leaves its body's captures alone |
| Matchers.Matcher.RecursiveMatch | python/ndn/nre.py:45-66 | the members from one on accept iff a cut exists, and hold the pieces of the lexicographically least one |
| Matchers.Matcher.RepeatMatch | python/ndn/nre.py:447-487 | the same for repetitions; the body holds the last iteration |
| Matchers.Matcher.AggressiveMatch | python/ndn/nre.py:69-78 | longest-first search: the same verdict, captures of the greatest split |
| Matchers.Matcher.ARecursiveMatch | python/ndn/nre.py:80-102 | members accept iff a cut exists, and hold the pieces of the lexicographically greatest one |
| Matchers.Matcher.ARepeatMatch | python/ndn/nre.py:490-530 | the same for repetitions, longest first |
| Matchers.EmptyRepeatKeepsCaptures | python/ndn/nre.py:494-496 | a repeat with minimum 0 on an empty slice succeeds while its body keeps the last iteration of the split an earlier match chose |
| Matchers.CapturesConcatenate | python/ndn/nre.py:34-43 | after a match the members' captures concatenate to the whole slice |
| PatternParser.ExtractSubPattern | python/ndn/nre.py:333-348 | the scan stops at the bracket that closes the first one, or fails at the end of the text |
| PatternParser.ExtractRepetition | python/ndn/nre.py:350-378 | the extent of a repetition suffix, or a missing brace |
| PatternParser.ExtractComponent | python/ndn/nre.py:213-228 | the extent of one component expression, to the end of the text if unclosed |
| PatternParser.CompileMultipleComponents | python/ndn/nre.py:195-211 | the components of a bracketed set, or the error |
| PatternParser.NewComponentSet | python/ndn/nre.py:160-193 | the set matcher for a text, or the error |
| PatternParser.NewBackRef | python/ndn/nre.py:255-271 | the group matcher, registered before the groups inside it |
| PatternParser.NewRepeat | python/ndn/nre.py:380-392 | the repeat matcher with its bounds, or the error |
| PatternParser.ExtractPattern | python/ndn/nre.py:292-331 | one more item appended to the list, its groups registered |
| PatternParser.NewPatternList | python/ndn/nre.py:274-289 | a valid tree of fresh objects for exactly the pattern the text denotes, or its error; the shared list grows by the tree's groups in order |
| PatternParser.GroupObjectsMatch | python/ndn/nre.py:265-269 | registered object number i stands for group number i of the pattern |
| PatternParser.GroupObjectsInside | python/ndn/nre.py:265-269 | every registered group is a node of its tree, so a match writes the captures that extraction reads |
| Brackets.CloseAround | python/ndn/nre.py:333-348 | from behind an opening bracket the scan takes a balanced text and its closing bracket, whatever follows |
| Brackets.CloseInside | python/ndn/nre.py:333-348 | where the scan succeeds, the text in front of the closing bracket is balanced |
| Brackets.ExtentAgrees | python/ndn/nre.py:213-228 | the component scan counts nested angle brackets: it stops where the bracket scan does, and takes the whole text where that one fails |
| PatternPrinter.ParseRepetitionPrinted | python/ndn/nre.py:394-445 | every printed suffix reads back as its bounds |
| PatternPrinter.SuffixOf | python/ndn/nre.py:394-445 | every suffix that is accepted is a printed one |
| PatternPrinter.RepetitionForms | python/ndn/nre.py:394-416 | the bounds of no suffix, `?`, `+` and `*` |
| PatternPrinter.BracedForms | python/ndn/nre.py:418-445 | the bounds of braces with one number or a comma, missing bounds filled in, or an error for bounds out of order or range |
| PatternPrinter.LeadingDigit | python/ndn/nre.py:418-436 | numerals are read in base ten |
| PatternPrinter.ParseSetPrinted | python/ndn/nre.py:183-228 | component sets read back, both forms, negated or not, for all expressions balanced in angle brackets |
| PatternPrinter.SetForms | python/ndn/nre.py:160-193 | the same by the characters they are written with |
| PatternPrinter.ClosePrinted | python/ndn/nre.py:333-348 | the bracket scan of a printed item stops at the item's own closing bracket whatever follows |
| PatternPrinter.RoundTrip | python/ndn/nre.py:274-378 | constructing a pattern list from printed items rebuilds the trees they denote, nested brackets in expressions included |
| PatternPrinter.ParsedIffPrinted | python/ndn/nre.py:274-445 | a text denotes a list of trees iff it prints items that do: the constructors accept exactly the grammar, whatever the expressions |
| PatternPrinter.ListForm | python/ndn/nre.py:274-289 | two lists one after the other make the list of both |
| PatternPrinter.GroupForm | python/ndn/nre.py:292-331 | a list in parentheses makes a group, repeated when a suffix follows |
| PatternPrinter.SetForm | python/ndn/nre.py:292-331 | a component set makes a repeat, exactly once when no suffix follows |
| PatternPrinter.PlainItemsPrintable | python/ndn/nre.py:333-348 | items without brackets in their expressions are all printable |
| PatternPrinter.PrintedTreeRebuilt | python/ndn/nre.py:274-445 | every tree of groups and repeats over plain expressions can be printed and is rebuilt from the text |
| PatternPrinter.ShapedIffParsed | python/ndn/nre.py:274-445 | those trees are exactly the ones the constructors build from some text with plain expressions |
| GroupNumbering.NumberedByParenthesis | python/ndn/nre.py:265-269 | in every text that parses, with plain expressions, group number i is the one whose text runs from the i-th opening parenthesis to its closing one |
| GroupNumbering.GroupsInConcat | python/ndn/nre.py:274-289 | the groups of a concatenated list are numbered through |
| NameRegex.AnyAhead | python/ndn/nre.py:553-554 | the expression put in front is one more item, whatever follows |
| NameRegex.ParseAppend | python/ndn/nre.py:548-549 | the expression put behind is one more item, and parsing the whole succeeds only if the front parses alone |
| NameRegex.CompileAnchors | python/ndn/nre.py:534-560 | an expression compiles iff the text between its anchors parses; each missing anchor adds one any-components item, a missing start anchor in a secondary matcher |
| NameRegex.SameNumbering | python/ndn/nre.py:545-560 | primary and secondary matcher number their groups alike |
| NameRegex.ExpressionNumbering | python/ndn/nre.py:545-560 | in both matchers group number i is the one at the i-th opening parenthesis of the whole expression |
| NameRegex.ListConcat | python/ndn/nre.py:45-66 | a list accepts what its two halves accept in sequence |
| NameRegex.CompiledLanguage | python/ndn/nre.py:567-578 | the matchers accept iff some contiguous slice is in the core's language, pinned by the anchors; the secondary accepts all the primary does |
| NameRegex.ExpressionLanguage | python/ndn/nre.py:604-615 | the same from the expression text |
| NameRegex.ExpressionForms | python/ndn/nre.py:534-578 | with `^` and `$` the core takes the whole name, with one of them a prefix or a suffix, with neither some slice |
| NameRegex.NothingCompiles | python/ndn/nre.py:545-553 | the empty expression and `$` alone are refused |
| RegexMatching.NewRegexMatcher | python/ndn/nre.py:534-560 | the constructor fails on exactly the texts that do not compile |
| RegexMatching.RegexMatcher.MatchName | python/ndn/nre.py:567-578 | verdict is the expression's meaning; which matcher was used; the accumulated result; captures of the least split |
| RegexMatching.RegexMatcher.MatchN | python/ndn/nre.py:604-615 | the same verdict, captures of the greatest split |
| GroupCaptures.GroupsHold | python/ndn/nre.py:265-271 | after a match every registered group that took part holds its piece of the chosen split, under a repeat that of the last iteration |
| GroupCaptures.CapturedPieces | python/ndn/nre.py:580-602 | after a match in either order, joining the numbered groups' captures joins their pieces of the chosen split |
| GroupCaptures.SelectedOne | python/ndn/nre.py:590-602 | a rule of one number gives that group's piece |
| GroupCaptures.SelectedInOrder | python/ndn/nre.py:590-602 | a longer rule gives its parts in order |
| RegexMatching.RegexMatcher.Extract | python/ndn/nre.py:580-602 | the captures of the numbered groups in order, an error iff a number is out of range; after `MatchName` or `MatchN` these are the groups' pieces of the split that match chose |
| Ndnb.Encode | python/ndn/impl/ndnb.py:22-37 | the loop yields the base-128 digits, most significant first, flag on the last byte only |
| Ndnb.HeaderSpells | python/ndn/impl/ndnb.py:22-37 | a header spells its value and type in base 128, most significant first, without leading zeros, flag on the last byte only |
| Ndnb.HeaderRoundTrip | python/ndn/impl/ndnb.py:22-65 | the decoder recovers every value and type from its header and reads no further |
| Ndnb.ReadIsHeader | python/ndn/impl/ndnb.py:49-65 | conversely the decoder reads a value from its own header only: no padded form exists |
| Ndnb.HeadersPrefixFree | python/ndn/impl/ndnb.py:22-37 | no header is a prefix of another and none starts like a closer |
| Ndnb.NDNBDecoder.ProcessNextByte | python/ndn/impl/ndnb.py:49-65 | one byte of a header: closer, value complete, or more to come |
| Ndnb.NDNBDecoder.NextTag | python/ndn/impl/ndnb.py:95-98 | bytes are read until one completes or the data ends |
| Ndnb.NDNBDecoder.HandleTag | python/ndn/impl/ndnb.py:100-115 | one round of the decoder on its stack and position |
| Ndnb.NDNBDecoder.GetTags | python/ndn/impl/ndnb.py:91-115 | the printed events, the outcome and the final fields are those of the run on the remaining bytes, from any decoder state |
| Ndnb.RunForms | python/ndn/impl/ndnb.py:91-115 | what each header type prints and does to the stack: only type 2 is pushed, a closer is printed with the tag it takes off |
| Ndnb.RunElement | python/ndn/impl/ndnb.py:91-115 | decoding an encoded element, of any header type, emits its preorder and leaves stack and rest as they were |
| Ndnb.DecodeEncoded | python/ndn/impl/ndnb.py:16-20 | decoding an encoded forest emits exactly its preorder events, each closer with its own tag, and ends with an empty stack at the end of the data |
| Ndnb.DecodesIff | python/ndn/impl/ndnb.py:91-115 | a run ends at the end of the data with an empty stack iff the data encodes a forest |
| Ndnb.StrayCloser | python/ndn/impl/ndnb.py:100-102 | a closer without its tag fails on the empty stack |
| Ndnb.ShortBlob | python/ndn/impl/ndnb.py:111-113 | a blob cut short prints what there is and moves the position past the end |
| Ndnb.CutHeader | python/ndn/impl/ndnb.py:95-98 | a header cut short fails |
| NameWire.SameLayout | python/ndn/impl/ndnb.py:16-20 | the byte layout of a name is that of nested tagged elements |
| NameWire.TagBytes | csrc/methods_interest.c:103-105 | name and component tags are one byte each |
| NameWire.SmallestNames | csrc/methods_name.c:84-161 | the bytes of the empty name and of one empty component |
| NameWire.SplitNameEncoded | csrc/methods_name.c:35-40 | splitting an encoded name finds exactly its components |
| NameWire.SplitNameIff | csrc/methods_name.c:35-40 | the bytes that split are exactly the encoded names |
| NameWire.PayloadEncoded | csrc/methods_name.c:47-64 | the header walk recovers offset and size of every payload, however long its header |
| NameWire.PayloadIff | csrc/methods_name.c:47-64 | in any bytes the payload lies between the first flagged byte and the last byte, and is missing without one |
| NameWire.WalkHeader | csrc/methods_name.c:54-64 | the loop computes that payload from any bytes, failing where the size would be negative |
| NameWire.NameCompsFromNdn | csrc/methods_name.c:46-70 | the payloads of all components, or failure if one has none |
| NameWire.NameCompsToNdn | csrc/methods_name.c:84-161 | appending component by component yields the name's encoding |
| NameWire.NameRoundTrip | csrc/methods_name.c:46-70 | splitting and walking an encoded name gives its components back |
| NameWire.NameBytesRoundTrip | csrc/methods_name.c:46-70 | whatever bytes split, all their payloads are found and encode to the same bytes |
| Authentication.StateRoundTrip | csrc/namecrypto/authentication.c:431-435 | host order undoes network order |
| Authentication.StateBytesRoundTrip | csrc/namecrypto/authentication.c:223-227 | network order undoes host order, byte for byte |
| Authentication.StateLayout | csrc/namecrypto/authentication.h:42-48 | the sixteen bytes are seconds, microseconds, sequence and reserve, most significant byte first |
| Authentication.AuthenticatorLayout | csrc/namecrypto/authentication.c:223-256 | magic, two-byte length, application name, state and MAC over name, application name and state, byte for byte |
| Authentication.UpdatedCarries | csrc/namecrypto/authentication.c:157-167 | the next state carries the signing clock and the next number |
| Authentication.SignedFresh | csrc/namecrypto/authentication.c:182-188 | a command signed at one clock and checked at another is fresh iff they are less than the delay and one millisecond apart, while they differ by less than 2^31 microseconds |
| Authentication.FreshExact | csrc/namecrypto/authentication.c:182-188 | below 2^31 microseconds the test is the intended one |
| Authentication.FreshModulo | csrc/namecrypto/authentication.c:182-188 | in general it accepts exactly the differences within the window of a multiple of 2^32 microseconds |
| Authentication.FreshWraps | csrc/namecrypto/authentication.c:182-188 | a difference of 2^32 microseconds passes for every delay it exceeds |
| Authentication.FreshAgrees | csrc/namecrypto/authentication.c:182-188 | exactly when the test gives the intended answer |
| Authentication.CompGetEncoded | csrc/namecrypto/authentication.c:302-337 | component lookup, detection and prefix length are right for every component of an encoded name |
| Authentication.ExtractEncoded | csrc/namecrypto/authentication.c:293-346 | the scan finds the rightmost authenticator after the first component, and the rebuilt prefix is the encoding of the components before it |
| Authentication.ExtractSigned | csrc/namecrypto/authentication.c:293-346 | from a signed name the verifier gets the signer's authenticator and the original name bytes |
| Authentication.AuthenticatorFields | csrc/namecrypto/authentication.c:423-436 | the verifier's field offsets undo the signer's |
| Authentication.MacVerdict | csrc/namecrypto/authentication.c:399-477 | exact verdict and new state for a well-formed command with any 32 bytes as its MAC, with or without a stored state; the MAC is expected under HMAC(fixture key, SHA-256(application name)) |
| Authentication.SignedVerdict | csrc/namecrypto/authentication.c:399-477 | a signed command checked with the matching key is accepted iff its sequence is newer and its time fresh, with the exact new state |
| Authentication.KeySeparation | csrc/namecrypto/authentication.c:113-116 | a newer and fresh command signed under one fixture key passes under another iff the two derived keys give the same MAC |
| Authentication.MissingIff | csrc/namecrypto/authentication.c:293-346 | the authenticator is missing exactly in bytes that encode no name, or none with a magic after the first component |
| Authentication.Decision | csrc/namecrypto/authentication.c:350-477 | the whole decision on any name with an authenticator: no key, length, sequence, time, MAC, in this order, from the component's bytes |
| Authentication.BareAuthenticatorRefused | csrc/namecrypto/authentication.c:304-305 | a command signed on a name without components is reported as missing its authenticator |
| Authentication.LongAppNameAborts | csrc/namecrypto/authentication.c:247-248 | an application name of 65536 bytes or more makes the verifier's length assertion fail |
| Authentication.AcceptedIsSigned | csrc/namecrypto/authentication.c:443-476 | whatever bytes are accepted encode a name that, up to its rightmost authenticator, is exactly what the signer builds from the components before it, newer than the stored state and fresh |
| Authentication.ForgedMovesState | csrc/namecrypto/authentication.c:437-475 | a command with any MAC but the right one is refused, and when newer and fresh it raises the stored state all the same |
| Authentication.VerifyStep | csrc/namecrypto/authentication.c:169-196 | one call moves the stored state iff it is keyed, well-formed, newer and fresh, the exact new state, and the calls whose MAC is compared are exactly these |
| Authentication.StoredIsMaximum | csrc/namecrypto/authentication.c:178-193 | over any run the stored sequence is the maximum of the first one and those of the keyed, well-formed and fresh calls; it never decreases |
| Authentication.ReachesMac | csrc/namecrypto/authentication.c:437-441 | a call of any run reaches the MAC comparison iff it is keyed, well-formed, fresh and newer than all such calls before it |
| Authentication.MaximumLocksOut | csrc/namecrypto/authentication.c:178-193 | after such a call with sequence 2^32 - 1 nothing is accepted |
| Authentication.ForgedLocksOut | csrc/namecrypto/authentication.c:437-475 | one fresh forged command with that sequence is enough, whatever its MAC |
| Authentication.NeverAcceptedTwice | csrc/namecrypto/authentication.c:157-196 | over any run accepted sequences strictly increase, so no command is accepted twice |
| Authentication.AcceptedAreNewer | csrc/namecrypto/authentication.c:178-180 | every accepted command of a run is newer than the state it started from |
| Authentication.GenuineInAnyRun | csrc/namecrypto/authentication.c:169-196 | in any run, forged calls included, a fresh genuine command is accepted iff it is newer than the first state and every keyed, well-formed and fresh call before it |
| Authentication.GenuineAccepted | csrc/namecrypto/authentication.c:157-196 | any in-order selection of one signer's commands, each arriving within its delay of the clock it was signed at, is accepted in full while the counter has not wrapped |
| Authentication.WrappedRefused | csrc/namecrypto/authentication.c:165 | the command after the counter wraps is refused by every verifier state |
| CommandAuth.AuthState.Update | csrc/namecrypto/authentication.c:157-167 | the signer's state before each command |
| CommandAuth.Message | csrc/namecrypto/authentication.c:446-450 | the copies lay name, application name and state end to end |
| CommandAuth.AuthenticateCommand | csrc/namecrypto/authentication.c:206-261 | the buffer becomes the signed name and the state its successor |
| CommandAuth.ExtractFromInterest | csrc/namecrypto/authentication.c:293-346 | the decreasing scan computes the extraction for any buffer |
| CommandAuth.VerifyUpdateStateFreshness | csrc/namecrypto/authentication.c:169-196 | verdict and new state of the check, also without a stored state |
| CommandAuth.VerifyCommandSymm | csrc/namecrypto/authentication.c:399-477 | verdict and new state for any authenticator bytes |
| CommandAuth.VerifyCommand | csrc/namecrypto/authentication.c:350-392 | verdict and new state for any name buffer, key and stored state |
| RunState.RemoveFirstCount | csrc/util.c:154-174 | clearing takes away one occurrence of the handle and nothing else |
| RunState.RemoveFirstSplit | csrc/util.c:154-174 | it is the first occurrence, and the others keep their order |
| RunState.RunStates.Add | csrc/util.c:119-135 | one more entry in front, or none if memory is short; the list stays a chain |
| RunState.RunStates.Find | csrc/util.c:137-151 | an entry is found iff the handle occurs |
| RunState.RunStates.Clear | csrc/util.c:153-174 | the first occurrence is unlinked; the list stays a chain |
| FaceLock.InvStep | python/ndn/Face.py:37-66 | every disciplined step of any thread keeps the lock invariant |
| FaceLock.DisciplineIsSafe | python/ndn/Face.py:37-66 | in every state reachable by a disciplined interleaving: one owner, an entry means the runner holds the lock, releases by the owner only, lock free when all are idle, clearing finds an entry |
| FaceLock.UndisciplinedIsUnsafe | python/ndn/Face.py:43-47 | a call begun by another thread during a run can end in a release by a thread that does not own the lock |
| FaceLock.OneCallIsEnough | python/ndn/Face.py:37-66 | from every initial state with two threads, a disciplined beginning and one undisciplined call reach an unsafe state |
| FaceLock.Progress | csrc/methods_handle.c:356-366 | no deadlock among operations that dispatch no callbacks: while a thread is on the face, one of them can move |
| FaceLock.StepWorks | python/ndn/Face.py:37-66 | every step that starts nothing new brings its thread nearer to its end |
| FaceLock.Bounded | python/ndn/Face.py:37-66 | without new work no interleaving is longer than the work left |
| FaceLock.AllFinish | python/ndn/Face.py:37-66 | from every reachable state all operations and runs can end, leaving the lock free and no entry |
| FaceLock.OneRunAtATime | python/ndn/Face.py:60-66 | while a run executes, another one on the face changes nothing |
| Segmenting.ValueFirst | python/ndn/Name.py:171-177 | numbers in bytes are read with the first byte weighing most |
| Segmenting.SegmentForm | python/ndn/Name.py:171-173 | a segment is a zero byte and the number without leading zeros; from 2^64 on packing fails |
| Segmenting.SegmentValue | python/ndn/Name.py:175-177 | up to eight bytes are read as the number they spell, more fail |
| Segmenting.SegmentRoundTrip | python/ndn/Name.py:171-177 | a segment number survives the round trip iff it is below 2^56 |
| Segmenting.Segmenter | python/ndn/impl/segmenting.py:27-41 | the chunks join to the data, all full but the last, which is not empty; numbers and final block ids |
| Segmenting.FinalBlockIdDecodes | python/ndn/impl/segmenting.py:18-20 | each segment's number and the final block id decode to its place and the last one's |
| Segmenting.EncodeLifetime | csrc/methods_interest.c:452-459 | the three bytes are the low 24 bits of the lifetime in 4096ths, its fraction dropped |
| Segmenting.DecodeLifetime | csrc/methods_interest.c:720-724 | the bytes' value in 4096ths |
| Segmenting.LifetimeRoundTrip | csrc/methods_interest.c:452-459 | the round trip loses less than one 4096th of a second iff the lifetime is below 4096 seconds, and nothing iff it is also a multiple of that |

## Left out

- Character-level `re` semantics, `re.compile` errors, and the pseudo groups of capture groups inside one component expression: a component test is a predicate. Numbering is stated for expressions without brackets, which have no such groups.
- Matchers.ComponentMatcher.Match: the captures of pseudo groups are not written, because the test is a predicate.
- PatternParser.NewComponentSet: registers no pseudo groups, because component expressions are not compiled.
- PatternParser.NewRepeat: registers bracketed groups only, for the same reason.
- PatternParser.ExtractPattern: registers bracketed groups only, for the same reason.
- PatternParser.NewPatternList: the shared list grows by bracketed groups only, for the same reason.
- GroupNumbering.NumberedByParenthesis: expressions that contain brackets are left out, because their parentheses may open pseudo groups.
- Depth of the call stack: the repeat search may recurse up to `sys.maxint` times when its body takes the empty slice; the model terminates by the same measure without running out of stack.
- Matchers.Matcher.Match: captures of groups under a repeat that ran no iteration in the final split are whatever earlier attempts left there; the contract says nothing of them, nor of inner captures after a failed match.
- Matcher lists are fixed when a matcher object is created; the source appends to them inside the constructors. The shared list of groups is changed in place, each group keeping its number with an empty slot until it is built.
- RegexMatching.RegexMatcher.Extract: takes the numbers of a rule; splitting the rule text is not modelled. For a group under a repeat that ran no iteration it reads whatever an earlier attempt left.
- The module-level `match` function and its type check.
- libndn, OpenSSL and Python objects: libndn's name functions only as byte layout, the rest not at all. RSA signing and verification are not part of this model; verification is modelled without an RSA key.
- C integer widths of buffer lengths (names below 4 GB) and overflow of the 64-bit clock difference.
- NameWire.NameCompsToNdn: byte components only; conversion of text and numbers is Python's.
- Calls nested in upcalls beyond one operation at a time, and calls that fail with an exception before their lock is taken.
- CommandAuth.VerifyCommand: the branch with an RSA key, because RSA is not part of this model.
- FaceLock.Progress: does not cover callbacks dispatched by a blocking `get` outside any run, because an operation is one step between its tests.
- Segmenting.EncodeLifetime: lifetimes whose conversion to an unsigned integer C leaves undefined, below -1/4096 seconds.
- Rounding of floating-point lifetimes and of the float segment count.
- Face connection handling, closures, event loop, version resolution, enumerations and other modules: no hard property.
