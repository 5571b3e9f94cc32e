# Amigo secreto: a verified model of the name-draw core

`app.js` is a browser widget for a gift exchange ("amigo secreto"). Friends are
added by name, and then a name is drawn at random, one at a time, until every friend
has been drawn. Under its DOM code there are two parts, and this project models both
of them in Dafny:

- **Admitting a name.** `validarNombre` trims the input. It then computes six
  independent checks: empty, length outside 3..30, a character outside
  `[a-zA-ZáéíóúÁÉÍÓÚñÑ\s]`, a forbidden word as a case-insensitive substring,
  a case-insensitive duplicate, and whitespace only. `formatearNombre`
  capitalises every piece between single spaces. `mostrarError` shows the
  message of the first check that fired, in a fixed order.
- **The draw pool.** Three arrays make up the pool: the roster `amigos`, the drawn names
  `amigosSorteados` and the still-available names `amigosDisponibles`. They
  are changed by adding (`agregarAmigo`), drawing (`sortearAmigo`), removing
  (`eliminarAmigo` and then `confirmarEliminacion`) and restarting
  (`reiniciarJuego`). The resync in `verificarEstadoJuego` runs after each
  of these except drawing.

The modules are:

- `Text`: the string primitives. These are the JavaScript whitespace set,
  case mapping over the Spanish alphabet, `trim`, UTF-16 `length` and `includes`.
- `Validation`: the checks, the display form and the message choice.
- `Seqs`: the array operations `splice(i, 1)`, `indexOf`, and `indexOf` followed
  by a guarded splice.
- `Pool`: the state of three sequences and every operation as a pure
  transition, exactly as the code is written. The random index of a draw is a
  parameter.
- `CorrectedPool`: the same pool with the two repairs listed under Findings.
- `NameExamples`: concrete names going through the checks.
- `Traces`: the concrete operation sequences that exhibit both findings, each next
  to its repaired counterpart.

What the three arrays always satisfy is `Pool.Inv`:

- the roster has no duplicates ignoring case;
- the pool has no duplicates;
- the pool and the drawn list hold only participants;
- every participant is in one of them.

Adding, drawing and the removal splices (lines 526-538) keep `Pool.Disjoint`:
nothing is both drawn and available. The resync of lines 173-175 does not keep
it. So removal as the page performs it, with the resync of line 542, can break
it, and `Pool.RemoveName` states exactly when.

The code's comments describe the refill of lines 146-149 as happening only for
the first draw (line 145), followed by a check whether anybody is left (line
151). When nobody is left, that check opens the prompt of lines 324-352, which offers to add more friends or restart.
The code instead starts a new cycle, because the refill runs whenever the pool
is empty, so the check of lines 152-154 never succeeds. `Pool.DrawName`
follows the code. The behaviour the comments describe is
`CorrectedPool.DrawFixed`.

## Model

| member | source | states |
|---|---|---|
| Text.IsWhitespace | app.js:16 | by definition, the ECMAScript WhiteSpace and LineTerminator code points that `trim` strips and `\s` matches: U+0009-000D, U+0020, U+00A0, U+1680, U+2000-200A, U+2028, U+2029, U+202F, U+205F, U+3000, U+FEFF |
| Text.LowerChar | app.js:27 | `toLowerCase` on one character: a capital of A-Z or ÁÉÍÓÚÑ moves up 0x20 to its small partner; every other character stays |
| Text.Lower | app.js:27 | `toLowerCase` keeps the length, leaves no capital letter, keeps every character that is not a capital letter, and turns each capital letter into its small partner |
| Text.LowerIdempotent | app.js:27 | lower-casing a lower-cased string changes nothing |
| Text.Utf16Length | app.js:24 | JavaScript's `length` lies between the number of characters and twice it; it equals the number of characters when no character lies above U+FFFF, and twice it when every character does |
| Text.Utf16LengthAppend | app.js:24 | the length of a concatenation is the sum of the lengths; the empty string has length 0 and one character has its own count of code units (two above U+FFFF, one otherwise) |
| Text.UpperChar | app.js:45 | `toUpperCase` on one character: a small letter becomes its capital partner, 0x20 below it; every other character stays |
| Text.EqualIgnoringCase | app.js:30 | by definition, two names are equal ignoring case when their lower-cased forms are equal |
| Text.Includes | app.js:27 | by definition, `p` occurs in `s` at some position 0..|s|-|p|, so the empty word always occurs and a longer word never does |
| Text.Trim | app.js:16 | the trimmed string is the slice of the input between its leading and its trailing whitespace; it neither starts nor ends with whitespace; it is empty exactly when the input is all whitespace |
| Text.TrimIdempotent | app.js:16 | trimming a trimmed name changes nothing |
| Validation.Blocklist | app.js:19 | by definition, the 65 forbidden words in their order, duplicates and the entry with four trailing spaces included |
| Validation.AllowedChar | app.js:25 | by definition, a character of the class `[a-zA-ZáéíóúÁÉÍÓÚñÑ\s]`, with `\s` the ECMAScript whitespace set |
| Validation.AllAllowed | app.js:25 | by definition, every character is allowed; the `+` of the regular expression (at least one character) is added by the letters check itself |
| Validation.DuplicateOf | app.js:29-31 | by definition, some participant equals the name ignoring case |
| Validation.SomeOccursMeaning | app.js:26-28 | the front-to-back scan of `some` finds a hit exactly when some word of the list occurs in the lower-cased name |
| Validation.OffensiveMeaning | app.js:19-28 | the forbidden-word check fires exactly when some blocklist entry, lower-cased, is a substring of the lower-cased name |
| Validation.Validate | app.js:14-40 | the name is valid exactly when the trimmed name has length 3..30, only allowed characters, no forbidden word and no case-insensitive duplicate on the roster; valid exactly when no check fires; the whitespace-only check fires exactly with the emptiness check, and the empty name also fails the length and letter checks; the cleaned form has the trimmed length, equals the trimmed name ignoring case, and differs ignoring case from every participant when valid; each flag is set exactly when its own check fails on the trimmed name (JavaScript length outside 3..30, not all allowed characters, a forbidden word, a case-insensitive duplicate), so every failing check is reported; the cleaned form is the display form of the trimmed name |
| Validation.LengthOutranksLaterChecks | app.js:22-33 | a trimmed name longer than 30 units sets the length flag, and the length message is shown whatever later checks also fail |
| Validation.AllowedIsBasicPlane | app.js:24-25 | on a name of allowed characters, JavaScript's length is the number of characters |
| Validation.Split | app.js:44 | `split(' ')` gives at least one piece, no piece holds a space, and joining the pieces with spaces gives the input back |
| Validation.Join | app.js:46 | by definition, `join(' ')`: the pieces in order with one space between neighbours |
| Validation.Capitalize | app.js:45 | by definition, the first character upper-cased and the rest kept; the empty piece stays empty |
| Validation.CapitalizeAll | app.js:45 | by definition, `map` of the capitalisation over the pieces, in order |
| Validation.Format | app.js:42-47 | the display form has the input's length; a character is upper-cased after lower-casing exactly when it starts the name or follows a space, and is lower-cased otherwise |
| Validation.CapitalizeAfterSpacesAt | app.js:45 | the character-wise reference capitalisation upper-cases exactly the characters at the start or after a space |
| Validation.SplitCapitalizeJoin | app.js:43-46 | split, capitalise every piece and join equals the character-wise reference |
| Validation.FormatKeepsLettersAndSpaces | app.js:42-47 | formatting keeps the length and every space and whitespace position, and the result equals the input ignoring case |
| Validation.FormatIdempotent | app.js:42-47 | formatting a formatted name changes nothing |
| Validation.ErrorMessage | app.js:90-98 | no message exactly when no check fired; otherwise the message reports a check that fired, and no message earlier in the order reports one |
| Validation.RejectionMessage | app.js:90-98 | on a verdict, a message is shown exactly when the name is refused; the whitespace-only message is never the one shown; an all-whitespace input shows the empty-name message |
| Seqs.RemoveAt | app.js:163 | `splice(i, 1)` drops one element, keeps the rest in order, and loses exactly the element at `i` from the multiset |
| Seqs.RemoveAtMembers | app.js:526 | without duplicates, the remaining members are exactly the old ones other than the removed value, still without duplicates |
| Seqs.RemoveAtSubset | app.js:531 | a splice only ever loses members, and only the removed value |
| Seqs.IndexOf | app.js:529 | `indexOf` is -1 exactly when the value is absent; otherwise it is the first position holding it |
| Seqs.RemoveFirst | app.js:529-532 | an absent value leaves the array unchanged; a present one loses one occurrence, the first |
| Pool.Resync | app.js:173-175 | the roster and the drawn list are untouched; a non-empty pool is untouched; an empty pool becomes a copy of the whole roster; afterwards the pool is empty only when the roster is empty |
| Pool.DrawEnabled | app.js:173-180 | after the resync, the button is enabled exactly when there are at least two participants |
| Pool.ResyncKeepsInv | app.js:173-175 | the resync keeps the invariant |
| Pool.ResyncDisjointness | app.js:173-175 | from a state keeping the invariant with nothing both drawn and available, the resync keeps that exactly unless it refills an empty pool while some participant is drawn |
| Pool.StatusOf | app.js:409-435 | each of the four banners is characterised by the lengths of the three arrays |
| Pool.StatusMeaning | app.js:409-435 | on states keeping the invariant, "complete" means a non-empty roster with an empty pool, and then every participant is drawn; "ready" means the pool holds exactly the roster |
| Pool.Admit | app.js:54-72 | a refused name leaves all three arrays unchanged and reports its checks; an admitted name is appended to the roster in display form, leaves the drawn list unchanged, and either refills the pool with the new roster (no draw yet) or is appended to the pool |
| Pool.AdmitKeepsUnique | app.js:54-62 | an admitted name differs ignoring case from every participant, so the roster stays free of case-insensitive duplicates |
| Pool.AddName | app.js:54-84 | the resync called on line 84 never changes the arrays after a name is added |
| Pool.AdmitKeepsInv | app.js:62-72 | adding keeps the invariant |
| Pool.AdmitKeepsDisjoint | app.js:66-72 | adding keeps drawn and available names apart |
| Pool.DrawName | app.js:133-163 | with fewer than two participants nothing changes and the matching refusal is reported; otherwise the roster is unchanged, the name is the one at the chosen index of the (refilled) pool, it leaves the pool and is appended to the drawn list, which is first cleared when the pool was empty |
| Pool.DrawNeverExhausted | app.js:146-155 | with two or more participants every draw yields a name, so the "nobody left" branch is unreachable; on an exhausted pool the drawn list restarts with the new name |
| Pool.DrawMovesOneName | app.js:158-163 | a draw from a non-empty pool moves exactly one name from the pool to the end of the drawn list |
| Pool.DrawKeepsInv | app.js:146-163 | drawing keeps the invariant |
| Pool.DrawKeepsDisjoint | app.js:146-163 | drawing keeps drawn and available names apart |
| Pool.Withdraw | app.js:469-538 | a drawn participant is refused with no change; an index past the end changes nothing; otherwise the roster loses exactly that position, the drawn list is untouched, and the pool loses the first occurrence of the name |
| Pool.RemoveName | app.js:522-542 | a refused removal changes nothing; otherwise the splices are followed by the resync of line 542; from a state keeping the invariant with nothing both drawn and available, the result has a name both drawn and available exactly when the splices empty the pool while participants remain and somebody is drawn |
| Pool.RemoveEffect | app.js:469-538 | on states keeping the invariant, removal is refused exactly for drawn participants; otherwise exactly that participant leaves the roster and the pool, and the drawn list never changes |
| Pool.WithdrawKeepsInv | app.js:526-538 | removing keeps the invariant |
| Pool.WithdrawKeepsDisjoint | app.js:526-538 | removing keeps drawn and available names apart |
| Pool.Reset | app.js:367-381 | restarting empties all three arrays |
| Pool.ResetIdempotent | app.js:367-372 | restarting twice is restarting once, and the result keeps the invariant and disjointness |
| Pool.Step | app.js:54-542 | one operation of the page (add, lines 54-84; draw, 133-163; remove, 469-542; restart, 367-381; the standalone resync of 260-267) is impossible exactly for a draw index `Math.random` cannot produce; drawing and the resync never change the roster; restarting gives the initial state |
| Pool.Run | app.js:54-542 | by definition, the operations applied in order, stopping at the first impossible draw index |
| Pool.StepKeepsInv | app.js:3-9 | every single operation keeps the invariant of the three arrays |
| Pool.RunKeepsInv | app.js:3-9 | every sequence of operations keeps the invariant of the three arrays |
| CorrectedPool.Undrawn | app.js:173-175 | the repaired refill holds exactly the participants not drawn, without duplicates |
| CorrectedPool.ResyncFixed | app.js:173-175 | the repaired resync refills an empty pool with exactly the participants not yet drawn |
| CorrectedPool.DrawFixed | app.js:133-163 | with fewer than two participants it refuses with no change, asking for friends when there are none and for a second friend when there is one; with two or more it draws a name unless everyone is drawn; it reports "nobody left" exactly when two or more participants are all drawn, and then changes nothing; otherwise it moves one name from the pool to the drawn list |
| CorrectedPool.DrawFixedAgrees | app.js:146-155 | away from an exhausted pool, the repaired draw is the draw as written |
| CorrectedPool.RemoveFixed | app.js:522-542 | removal with the repaired resync answers as removal as written and leaves the same roster and drawn list; on states keeping the invariant it leaves a different pool exactly when removal as written puts a drawn name back; it keeps the repaired invariant |
| CorrectedPool.UndrawnNothingDrawn | app.js:173-175 | with nobody drawn, the repaired refill is the whole roster, as the refill as written |
| CorrectedPool.ResyncFixedKeepsInv | app.js:173-175 | the repaired resync keeps the invariant, disjointness and a duplicate-free drawn list |
| CorrectedPool.DrawFixedKeepsInv | app.js:146-163 | the repaired draw keeps them |
| CorrectedPool.StepFixed | app.js:54-542 | the repaired operations are impossible exactly for a draw index outside a non-empty repaired source; drawing and the resync never change the roster; restarting gives the initial state |
| CorrectedPool.RunFixed | app.js:54-542 | by definition, the repaired operations applied in order, stopping at the first impossible draw index |
| CorrectedPool.StepFixedKeepsInv | app.js:3-9 | every repaired operation keeps them |
| CorrectedPool.RunFixedKeepsInv | app.js:3-9 | with both repairs, every reachable state keeps them, so nobody is drawn twice in a cycle |
| NameExamples.ShortNameInoffensive | app.js:19-28 | a three-character name is offensive only when it is "feo" ignoring case |
| NameExamples.PlainNameAdmitted | app.js:14-47 | a capitalised three-letter name not starting with F, whose initial no participant shares, is valid and kept unchanged |
| NameExamples.CleanedExample | app.js:14-47 | `"  JUAN perez  "` is cleaned to `"Juan Perez"` |
| NameExamples.DuplicateExample | app.js:29-31 | "ana" after "Ana" is refused as a duplicate, with the duplicate message |
| NameExamples.AstralExample | app.js:24-25 | two characters above U+FFFF have JavaScript length 4, so the length check passes, the letters check fails, and the letters message is shown |
| NameExamples.TooShortExample | app.js:24 | "Al" fails the length check, and the length message is shown |
| Traces.AddValid | app.js:54-72 | a name that passes unchanged goes to the end of the roster and the pool becomes a copy of the enlarged roster when nobody is drawn, or gets the name appended otherwise |
| Traces.ThreeFriendsJoin | app.js:54-72 | three friends joining in turn fill roster and pool in insertion order |
| Traces.JoinMidCycle | app.js:66-72 | a friend joining mid-cycle goes to the end of the pool |
| Traces.WithdrawMiddle | app.js:522-532 | removing the second of three undrawn participants splices it out of the roster and the pool |
| Traces.ThirdDrawRestarts | app.js:146-163 | with two friends, two draws complete the cycle, and the third draw silently restarts it and draws again |
| Traces.ThirdDrawReportsExhaustion | app.js:146-155 | with the repaired draw, the third draw reports "nobody left" and the complete state stays |
| Traces.ResyncBreaksDisjointness | app.js:173-175 | add three, draw the first, remove the other two: the first friend is both drawn and available; after a fourth joins, the first is drawn twice in one cycle |
| Traces.ResyncFixedKeepsDisjointness | app.js:173-175 | with the repairs, the same operations leave the first friend drawn only, and the next draw picks the fourth friend |

## Left out

- All DOM and presentation code is left out because it is interface, not behaviour. This covers messages, animations, confetti, list rendering, titles, button labels and styles, and the display of the modals.
- The result modal's buttons are not modelled as constraints on what may follow a draw. The model lets any operation follow a draw. In the page, the modal's close button restarts the game (lines 256-258 and 304-311). Its other button runs the resync (lines 260-267), and it is shown only while somebody is left (lines 245-250). Both choices are operations of the model (restart and a standalone resync).
- `setTimeout` scheduling is left out: it only delays interface updates.
- `Math.random` is replaced by the draw index parameter, which is any index the expression on line 158 can produce.
- The `juegoActivo` flag is left out: it is written but never read.
- The confirmation dialog of a removal is left out. A removal is modelled as the guard of `eliminarAmigo` followed at once by `confirmarEliminacion`, so a change between the two is not modelled.
- Text.LowerChar: full Unicode case mapping is not modelled, because the name check only admits the Spanish letters. Case mapping covers A-Z, ÁÉÍÓÚÑ and their small partners, and every other character maps to itself.
- The regular-expression engine is left out. The character class is a predicate, and `\s` and `trim` share the ECMAScript whitespace set.
- The text of each message is left out. Only which message is chosen is modelled.

## Findings

| source | as written | input that shows it | evidently intended | confidence | as-written member | corrected member |
|---|---|---|---|---|---|---|
| app.js:146-155 | an empty pool is refilled from the roster, and the drawn list cleared, before the "nobody left" test, so that test never succeeds and a draw after every friend is drawn silently starts a new cycle | any two distinct friends, then three draws with index 0: the third draw yields the first friend again, and the second friend's draw is forgotten (in the page, after the second draw the result modal offers only its restarting close button, so the third draw needs the draw button pressed behind the open modal; the dead branch of lines 152-154 does not depend on this) | refill only for the first draw of a cycle, and show the "nobody left" prompt when every friend is drawn | not executed | Traces.ThirdDrawRestarts | CorrectedPool.DrawFixed |
| app.js:173-175 | the resync copies the whole roster into an empty pool without clearing the drawn list, so a drawn friend becomes available again | add Ana, Eva, Ivo; draw index 0 (Ana) and leave the result modal with its resync button; remove index 1 twice: pool and drawn list are both [Ana]; add Noe, draw index 0: Ana is drawn a second time | refill an empty pool only with the friends not yet drawn, so nobody is drawn twice in a cycle | not executed | Traces.ResyncBreaksDisjointness | CorrectedPool.ResyncFixed |
