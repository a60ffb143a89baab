# eslint-plugin-align-assignments, modelled in Dafny

The plugin has two ESLint rules that line up the `=` of adjacent statements.

- **align-assignments** works on variable declarations and on expression
  statements that hold an assignment expression. It collects them into groups
  of adjacent statements. For each group it computes the column `maxPos` where
  the operator of every eligible member should end. It reports a group in which
  some eligible member has no `=` at that column. The fix rebuilds each
  misaligned member as follows:
  - the text before the operator, with its trailing white space trimmed;
  - padding spaces;
  - the operator;
  - one space;
  - the text after the operator, with its leading white space trimmed.
- **align-requires** works only on declarations whose text contains `require(`.
  A line's position is the index of its first `=`, and `maxPos` is the largest
  position in the group. A group is reported when some line's position differs
  from `maxPos`. The fix inserts `maxPos - pos` spaces before each short line's
  `=`. It then replaces the span from the first member to the last with the
  fixed lines joined by line feeds.

The parser's output is an input to the model. Each visited statement is a
`Statements.Stmt` record with these fields:
- its parent;
- the line of its first token and the start line of its last token;
- its kind: a declaration, with a flag for a declaration whose parent is a
  for-statement; an assignment, with the start lines of its two sides; or some
  other expression;
- its source text and its offsets in the file;
- the width of its declared name or left side (`prefix`);
- its tokens, each with its line and columns.

Everything else is pure functions over sequences and strings. The modules are:

- `Wrappers`: `Option`.
- `Text`: JavaScript string operations modelled as explicit scans:
  - `' '.repeat`;
  - the index rules of `slice`, `substr` and `substring`;
  - the `\s` class;
  - the multiline trims `/\s+$/m` and `/^\s+/m`, next to the plain trims;
  - `search`, `split('\n')[0]` and `/require\(/.test`.
- `Operators`: the thirteen assignment operators, and the leftmost-match scan
  for the pattern `(\s*)((?:\+|-|\*|\/|%|&|\^|\||<<|>>|\*\*|>>>)?=)`.
- `Grouping`: the visitors' filters and the grouping fold shared by both rules.
  The rule is a parameter. Only align-assignments has the `requiresOnly` option
  and the for-loop cut.
- `AlignAssignments`:
  - `findAssigment`, `getMaxPos`, `areAligned` and `assignmentOnFirstLine`;
  - the fix of one member;
  - `check`, both as written and corrected.
- `AlignRequires`: the same parts of the requires rule.
- `Scenarios`: concrete groups. They include the documented examples and the
  inputs behind the findings below.

## Model

| member | source | states |
|---|---|---|
| Text.Spaces | lib/rules/align-assignments.js:108 | `' '.repeat(n)` is exactly `n` characters, all spaces |
| Text.TrimEnd | lib/rules/align-assignments.js:105 | the result is a prefix of the input, everything cut is white space, and it does not end in white space |
| Text.TrimStart | lib/rules/align-assignments.js:106 | the result is a suffix of the input, everything cut is white space, and it does not start with white space |
| Text.JsIndex | lib/rules/align-assignments.js:127 | `substr(prefix)` starts at the prefix when it lies inside the text, counts a negative prefix from the end, and clamps it to the text at either end |
| Text.TrimEndAsWritten | lib/rules/align-assignments.js:105 | `replace(/\s+$/m, '')` either changes nothing or cuts one non-empty run of white space that ends at a line terminator or at the end of the text |
| Text.TrimEndAsWrittenIsLeftmost | lib/rules/align-assignments.js:105 | `replace(/\s+$/m, '')` changes nothing when no white-space run reaches a line end; otherwise it cuts the run at the leftmost white space that reaches one, up to the last line end inside that run, and nothing else |
| Text.TrailingRunFromIsLeftmost | lib/rules/align-assignments.js:105 | the search for `/\s+$/m` from an index finds nothing exactly when no match starts at or after it, and otherwise stops at the first index a match can start from |
| Text.TrimStartAsWritten | lib/rules/align-assignments.js:106 | `replace(/^\s+/m, '')` changes nothing when no line starts with white space; otherwise it cuts the whole white-space run at the first line start that has one, and nothing else |
| Text.TrimEndAsWrittenOnOneLine | lib/rules/align-assignments.js:105 | on text without a line break, `replace(/\s+$/m, '')` removes exactly the trailing white space |
| Text.TrimStartAsWrittenAgrees | lib/rules/align-assignments.js:106 | `replace(/^\s+/m, '')` equals the plain leading trim when the text starts with white space or is one line |
| Text.IndexOf | lib/rules/align-requires.js:63 | `search` gives -1 exactly when the character is absent; otherwise the index of its first occurrence |
| Text.FirstLine | lib/rules/align-assignments.js:161-162 | `split('\n')[0]` is a prefix without a line feed, ending at the first line feed |
| Text.Contains | lib/rules/align-assignments.js:11 | the `/require\(/` test holds exactly when the literal occurs at some index |
| Operators.OperatorShape | lib/rules/align-assignments.js:95 | each of the thirteen operators is 1 to 4 characters, none of them white space, and `=` comes only last |
| Operators.OperatorUnique | lib/rules/align-assignments.js:12 | no operator is a proper prefix of another, so at most one operator starts at any index |
| Operators.OperatorLengthSpec | lib/rules/align-assignments.js:12 | the character-by-character reading of the operator alternatives finds an operator exactly when the text starts with one |
| Operators.ScanSpec | lib/rules/align-assignments.js:127 | `match` returns a match of white space followed by an operator, with no match at an earlier index; none only when nothing matches |
| Operators.ScanIsLeftmost | lib/rules/align-assignments.js:127 | a match with no earlier match is the one `match` returns |
| Grouping.Admits | lib/rules/align-assignments.js:21-42 | an expression statement without an assignment is never grouped; a declaration containing `require(` always is; under align-requires only such declarations are (align-requires.js:86-88); with `requiresOnly` exactly assignments and declarations containing `require(` are; without it everything but a non-assignment expression is |
| Grouping.StartsNewGroup | lib/rules/align-assignments.js:63-79 | the first statement opens a group; any later one joins the previous statement's group exactly when they share a parent, it starts on the line after the previous one's last token, and, under align-assignments, the previous one is not a for-loop declaration (align-requires.js:23-30 has no such cut) |
| Grouping.Observe | lib/rules/align-assignments.js:54-61 | a filtered statement changes nothing; an admitted one becomes `previousNode` and is appended to the flattened groups, either as a new last group with the earlier groups untouched, or at the end of the last group with the others untouched |
| Grouping.Admitted | lib/rules/align-assignments.js:27-42 | a statement reaches the grouper exactly when it is visited and passes its visitor's filter: the `requiresOnly` test for declarations, and an assignment expression for expression statements; a single statement is kept or dropped on its own |
| Grouping.AdmittedAppend | lib/rules/align-assignments.js:27-42 | filtering keeps the visiting order: the statements admitted from two consecutive runs are those of the first run, then those of the second |
| Grouping.GroupAll | lib/rules/align-assignments.js:54-61 | the groups cut the admitted statements into maximal runs, and `previousNode` is the last admitted statement, so a filtered statement never becomes it |
| Grouping.ObserveExtends | lib/rules/align-requires.js:86-96 | one visit extends the partition by the statement when it is admitted, and leaves the groups and `previousNode` alone otherwise |
| Grouping.OpenGroupExtends | lib/rules/align-assignments.js:55-56 | a statement that calls for a new group becomes a group of its own |
| Grouping.JoinGroupExtends | lib/rules/align-assignments.js:57-58 | any other statement is appended to the last group |
| Grouping.GroupsCoverAdmitted | lib/rules/align-assignments.js:54-61 | every admitted statement lands in exactly one group, in order, and no group is empty |
| Grouping.GroupsAreContiguous | lib/rules/align-assignments.js:63-79 | consecutive members of a group share a parent and stand on consecutive lines; under the assignment rule the earlier one is not a for-loop declaration |
| Grouping.RunPartitionUnique | lib/rules/align-requires.js:23-30 | there is only one partition into maximal runs, so the fold's groups are determined by `shouldStartNewGroup` alone |
| AlignAssignments.FindAssignmentIsLeftmost | lib/rules/align-assignments.js:124-130 | the position is null exactly when the pattern matches nowhere after the prefix; otherwise it is the prefix, plus the index of the leftmost match, plus the operator's width |
| AlignAssignments.FindAssignmentBounds | lib/rules/align-assignments.js:124-130 | a position lies after the prefix and within the text; a text with no `=` after the prefix has no position |
| AlignAssignments.DeclarationOnFirstLine | lib/rules/align-assignments.js:159-163 | a declaration takes part exactly when its text has an `=` with no line feed before it |
| AlignAssignments.AreAligned | lib/rules/align-assignments.js:141-146 | a group with no eligible member is aligned, and in an aligned group `maxPos` is an index inside every eligible member's text |
| AlignAssignments.FindAssignmentMarksOperatorEnd | lib/rules/align-assignments.js:128 | the operator's `=` stands at the position plus the width of the matched white space, minus one; with exactly one space the position is the index of that `=` |
| AlignAssignments.MaxOf | lib/rules/align-assignments.js:152 | the reduce that starts from `[]` is at least every present position, and is 0 or one of them |
| AlignAssignments.MaxPos | lib/rules/align-assignments.js:148-153 | `maxPos` bounds every eligible member's position and is 0 or one of them |
| AlignAssignments.NoEligibleNeverReported | lib/rules/align-assignments.js:141-146 | a group with no eligible member is never reported |
| AlignAssignments.FindOperatorIsFirst | lib/rules/align-assignments.js:95 | `tokens.find` returns the first token that is an assignment operator; none only when no token is one |
| AlignAssignments.FixMember | lib/rules/align-assignments.js:98-111 | a rebuilt member has `=` at index `maxPos`; any other member keeps its text, and the corrected fix rebuilds only members that take part in the check (row 3 of the findings) |
| AlignAssignments.RefitShape | lib/rules/align-assignments.js:102-110 | a rebuilt member reads as the trimmed left part, spaces, the operator ending at `maxPos`, one space, and the trimmed right part |
| AlignAssignments.FixMemberAsWritten | lib/rules/align-assignments.js:98-111 | the fix as written throws exactly when it rebuilds a member with negative padding; a member it does not rebuild keeps its text |
| AlignAssignments.FixMemberAgrees | lib/rules/align-assignments.js:105-106 | where the fix as written does not throw and its multiline trim agrees with the plain trim, the corrected fix builds the same text |
| AlignAssignments.Check | lib/rules/align-assignments.js:81-117 | no report exactly when the group is aligned; otherwise one text per member: a rebuilt one has `=` at `maxPos`, and every other one, including each member that takes no part in the check, keeps its text |
| AlignAssignments.CheckAsWritten | lib/rules/align-assignments.js:84-112 | no report exactly when the group is aligned; when the fix does not throw, each text is the member's fix as written |
| AlignAssignments.CheckAsWrittenThrows | lib/rules/align-assignments.js:107-108 | `check` as written throws exactly when the group is reported and some rebuilt member's padding is negative |
| AlignAssignments.Collect | lib/rules/align-assignments.js:92-112 | building the members' fixes in order throws when any one of them throws, and otherwise yields all of their texts |
| AlignAssignments.CheckAgrees | lib/rules/align-assignments.js:92-114 | where `check` as written does not throw, rebuilds only members that take part, and every trim agrees, it yields the corrected texts |
| AlignAssignments.FixMemberParts | lib/rules/align-assignments.js:102-105 | when the operator token stands on the first line, the fix's trimmed left part is the text before the operator without its trailing white space |
| AlignAssignments.OperatorSurroundings | lib/rules/align-assignments.js:102-106 | a member's text reads: the text before the operator, white space, the operator token, white space, the text after it |
| AlignAssignments.FixTouchesOnlyOperatorSpacing | lib/rules/align-assignments.js:102-110 | the rebuilt text reads the same: the same text before and after, the same operator ending at `maxPos`, and exactly one space after it |
| AlignAssignments.ScanFindsOperatorPosition | lib/rules/align-assignments.js:128 | when the leftmost match is the white space after the trimmed text before the operator token, then that token, the position is the length of that text plus the operator's width: the index of the operator's final `=` when one space precedes it, and the end of the token only when nothing does |
| AlignAssignments.PositionFromScan | lib/rules/align-assignments.js:125-128 | two members with the same prefix whose texts scan alike from it have the same position |
| AlignAssignments.FixKeepsPosition | lib/rules/align-assignments.js:124-130 | rebuilding a member with at least one space of padding leaves its `findAssigment` unchanged |
| AlignAssignments.RefitFirstLine | lib/rules/align-assignments.js:160-162 | a rebuilt declaration has `=` on its first line both before and after the fix |
| AlignAssignments.RefitMember | lib/rules/align-assignments.js:141-164 | a member that takes no part is left exactly as it was; after the fix a member is eligible exactly when it was, keeps its position, and, if eligible, has `=` at `maxPos`; a rebuilt member has no line break before its right side, so its recorded lines still hold |
| AlignAssignments.RefitKeepsRightOnFirstLine | lib/rules/align-assignments.js:109 | a rebuilt member has no line break before the text after its operator |
| AlignAssignments.FixIsIdempotent | lib/rules/align-assignments.js:81-117 | after the corrected replacement texts are applied, the column is unchanged and the group is no longer reported; the members keep their kinds and tokens, which the fix leaves valid because it touches only members that take part and keeps their right side on the first line |
| AlignAssignments.EligiblePaddingPositive | lib/rules/align-assignments.js:107 | an eligible member whose scan finds its operator token gets at least one space of padding |
| AlignRequires.FindAssignment | lib/rules/align-requires.js:62-64 | -1 exactly when the line has no `=`; otherwise the index of its first `=` |
| AlignRequires.MaxPos | lib/rules/align-requires.js:73-79 | the reduce without an initial value bounds every line's position and equals one of them |
| AlignRequires.AreAligned | lib/rules/align-requires.js:66-70 | an aligned non-empty group has column `maxPos`; every line then has its first `=` there, or, when `maxPos` is -1, no line has an `=` |
| AlignRequires.ReportedIffColumnsDiffer | lib/rules/align-requires.js:66-70 | a group is reported exactly when two of its lines have their first `=` in different columns |
| AlignRequires.FixLine | lib/rules/align-requires.js:43-53 | a fixed line grows by `maxPos - pos` characters, a line whose position is `maxPos` is returned as it is, and the text before the first `=` is kept at the front |
| AlignRequires.FixLineInsertsSpaces | lib/rules/align-requires.js:44-53 | the fix inserts exactly `maxPos - pos` spaces where the `=` stands (at the start when there is none); deleting them gives the line back |
| AlignRequires.FixLineAligns | lib/rules/align-requires.js:44-53 | after the fix a line's first `=` is at `maxPos`, and a line without `=` still has none |
| AlignRequires.FixIsIdempotent | lib/rules/align-requires.js:35-54 | when every line has an `=`, the fixed group has the same column and is not reported |
| AlignRequires.LineWithoutEqStaysReported | lib/rules/align-requires.js:44-53 | a line without `=` keeps the fixed group reported whenever another line has one |
| AlignRequires.JoinIsInterleave | lib/rules/align-requires.js:54 | joining with a separator is interleaving with that separator in every gap |
| AlignRequires.CheckAsWritten | lib/rules/align-requires.js:33-60 | no report exactly when the group is aligned; otherwise the report spans the first member's start to the last member's end |
| AlignRequires.Check | lib/rules/align-requires.js:42-56 | the corrected check reports the same range, which lies inside the file |
| AlignRequires.CheckFixesEachMember | lib/rules/align-requires.js:42-56 | applying the corrected report replaces each member's text by its fixed line and leaves everything between members as it was |
| AlignRequires.InterleaveReplacesEach | lib/rules/align-requires.js:54-56 | rebuilding the range from new texts and the original gaps equals replacing the members one at a time |
| AlignRequires.CheckAgrees | lib/rules/align-requires.js:54 | when every gap between members is one line feed, `check` as written and the corrected check give the same report |
| Scenarios.DeclarationPosition | lib/rules/align-assignments.js:124-130 | `const ABC = require()` with a three-wide name has position 10, the index of its `=` |
| Scenarios.GroupColumn | lib/rules/align-assignments.js:148-153 | `yy = 2`, `x = 1` and an assignment split across lines have column 3; the split one takes no part |
| Scenarios.NegativePaddingGroup | lib/rules/align-assignments.js:98-108 | in that group the split assignment is rebuilt by the fix as written, yet its padding is negative |
| Scenarios.NegativePaddingThrows | lib/rules/align-assignments.js:107-108 | on that group `check` as written throws; the corrected check keeps the split member's text |
| Scenarios.RequireAFix | tests/lib/rules/align-assignments_test.js:41-48 | at column 10, `const A = require('a')` is rebuilt as `const A   = require('a')` |
| Scenarios.RequiresOnlyDropsPlainDeclaration | lib/rules/align-assignments.js:27-33 | with `requiresOnly`, `const ABC = require()` followed by `const A = 1` forms the one group `[const ABC = require()]`, which is aligned; the plain declaration joins no group and is not remembered as the previous statement |
| Scenarios.PaddedNameGroupAligned | tests/lib/rules/align-assignments_test.js:26-31 | `const ABC = require()` over `const A   = require()` has column 10 and is not reported, though the second line's position is 8 |
| Scenarios.RightAlignedGroupAligned | tests/lib/rules/align-assignments_test.js:32-37 | `const ABC = require()` over `const   A = require()` has column 10 and is not reported |
| Scenarios.RequireGroupFixed | tests/lib/rules/align-assignments_test.js:41-48 | `const A = require('a')` over `const ABC = require('abc')` has column 10, is reported, and is replaced by `const A   = require('a')` and the unchanged second line |
| Scenarios.FixAsWrittenNotIdempotent | lib/rules/align-assignments.js:98-112 | on `yy = 2`, `x = 1` and `abc =` with `1` on the next line, the fix as written joins the last member into `abc= 1`; read again, those texts have column 4 and are reported again |
| Scenarios.SplitMemberKept | lib/rules/align-assignments.js:155-158 | on the same group the corrected check keeps the split member's text |
| Scenarios.TrimStartAsWrittenDropsIndent | lib/rules/align-assignments.js:106 | on `{`, a line feed, two spaces and `a`, the multiline trim removes the second line's indentation; the plain trim removes nothing |
| Scenarios.TwoMemberReplacements | lib/rules/align-requires.js:54-56 | for two misaligned members, the written check puts a line feed between the fixed texts, and the corrected check puts the file's own text between them |
| Scenarios.JoinDropsComment | lib/rules/align-requires.js:54 | with a comment after the first declaration, `check` as written loses the comment and the corrected check keeps it |
| Scenarios.RequiresValidGroup | tests/lib/rules/align-requires_test.js:28-34 | `const ABC = require()` over `const A   = require()` has column 10, and neither the check as written nor the corrected check reports it |
| Scenarios.RequiresTestOutput | tests/lib/rules/align-requires_test.js:38-46 | the documented pair is reported and replaced by `const A   = require('a')`, a line feed, and the second line; both checks agree |

## Left out

- ESLint plumbing is left out: `create`, `context.report`, the fixer objects, `meta` and the `Program:exit` hook. A report is a value. For align-assignments it is the list of replacement texts. For align-requires it is a range plus its replacement text.
- Report messages and report locations are not modelled. The align-assignments tests expect the message 'This group of requires is not aligned'. The rule emits 'This group of assignments is not aligned'.
- Parsing and tokenisation are inputs. Token lines and columns, first and last tokens, and the `loc` of the left side or declared name are fields of `Stmt`.
- `getPrefix` is not modelled; its result is the `prefix` field. The declarator it reads is the first `VariableDeclarator`, which the parser provides.
- `fixings.filter(fix => fix)` is left out. Every element of `fixings` is a fix object, so the filter changes nothing.
- Regular expressions are modelled only for the patterns the rules use, as explicit scans.
- Strings are sequences of characters, each taken as one UTF-16 code unit. Only text in the Basic Multilingual Plane is modelled. A character outside it is two code units in JavaScript, which shifts every column, `charAt` and `substr` index that the rules compute.
- `isMultiline` is a definition only (`IsMultiline`). Its one comparison of token lines is stated through `Rewrites`, `Refits` and the fix rows above.
- AlignAssignments.FixIsIdempotent: the re-read group keeps each member's kind and tokens; the model does not re-parse the fixed text.
- AlignAssignments.FixIsIdempotent: proved only under one hypothesis, which the source's promise of idempotence takes for granted: the scan of every eligible member finds its operator token. Without it the scanned `=` and the rewritten token can differ, and nothing then guarantees alignment.
- AlignAssignments.FixKeepsPosition: assumes at least one space of padding. EligiblePaddingPositive shows that every eligible member whose scan finds its token gets one.
- AlignRequires.FixIsIdempotent: proved only when every line has an `=`. LineWithoutEqStaysReported shows why: a line without `=` keeps the group reported after the fix.

## Findings

| source | as written | input that shows it | evidently intended | confidence | as-written member | corrected member |
|---|---|---|---|---|---|---|
| lib/rules/align-assignments.js:106 | `ending.replace(/^\s+/m, '')` removes the first white-space run that starts any line | a right side with no space after the operator followed by an indented line, e.g. `{`, line feed, two spaces, `a` | remove only the white space right after the operator | not executed | Text.TrimStartAsWritten | AlignAssignments.FixMember |
| lib/rules/align-assignments.js:107-108 | `' '.repeat(spacesRequired)` is called with a negative count for a member whose operator is on the first line but whose right side starts on the next, and throws a RangeError | `yy = 2`, `x = 1`, `longName =` with `2` on the next line | leave such a member unchanged | not executed | AlignAssignments.CheckAsWritten | AlignAssignments.Check |
| lib/rules/align-assignments.js:98-112 | the fix rebuilds every member with an operator token on its first token's line and no `=` at `maxPos`, including a member that takes no part in the check because its right side starts on a later line | `yy = 2`, `x = 1`, `abc =` with `1` on the next line: the last member becomes `abc= 1`, which takes part when read again and leaves the group reported | rebuild only the members that take part, as `assignmentOnFirstLine` selects them (lines 155-164) | not executed | Scenarios.FixAsWrittenNotIdempotent | AlignAssignments.Check |
| lib/rules/align-requires.js:54-56 | the fixed lines are joined with `\n` and replace the whole span from the first member to the last, so any other text between members is lost | `var a = require('a'); // a`, line feed, `var bb = require('b');` | keep the file's text between members | not executed | AlignRequires.CheckAsWritten | AlignRequires.Check |

The as-written member of each row comes with a lemma that exhibits the
discrepancy, and the corrected member with a lemma that proves the intended
behaviour:

- Row 1: Scenarios.TrimStartAsWrittenDropsIndent exhibits it. AlignAssignments.FixTouchesOnlyOperatorSpacing proves that the corrected fix changes nothing but the white space around the operator.
- Row 2: Scenarios.NegativePaddingThrows exhibits it, and AlignAssignments.CheckAsWrittenThrows characterises when it happens. AlignAssignments.FixMember keeps such a member's text.
- Row 3: Scenarios.FixAsWrittenNotIdempotent exhibits it. Scenarios.SplitMemberKept shows that the corrected check keeps that member, and AlignAssignments.FixIsIdempotent proves that the corrected fix leaves a group that is not reported.
- Row 4: Scenarios.JoinDropsComment exhibits it. AlignRequires.CheckFixesEachMember proves that the corrected report changes only the members' own texts. AlignRequires.CheckAgrees shows that the two checks agree when every gap is a single line feed.
