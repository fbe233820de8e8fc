# Zowe native CLI: verified model

This project models the parts of the Zowe remote SSH native CLI whose behaviour is hardest to see from
one function alone, and proves what they are for:

- the **command line front end**: a lexer and token printer (`Lexer.dfy`, `Tokenizer.dfy`), a recursive
  command parser (`Commands.dfy`, `CommandLaws.dfy`, `CommandTermination.dfy`, `CommandValues.dfy`,
  `CommandMeaning.dfy`, `CommandRun.dfy`), its argument vector and command line doors (`ArgumentParser.dfy`), argument
  registration (`Registration.dfy`) and the edit distance behind suggestions (`Levenshtein.dfy`);
- the **data set member writer**: text to lines and ASA control characters (`Asa.dfy`), whole and
  streamed writing (`MemberWriter.dfy`), records to physical blocks (`Blocking.dfy`), and the
  ENQ/RESERVE/OPEN/CLOSE discipline around them (`Bpam.dfy`);
- the **PDS directory walk** (`Directory.dfy`) and its one-star-back **wildcard matcher** (`Wildcard.dfy`);
- **base64** (`Base64.dfy`; section 4 of RFC 4648) and **JSON text** (`JsonText.dfy`, `JsonIndent.dfy`;
  section 7 of RFC 8259);
- the **inheritance closure** of the type generator (`Closure.dfy`);
- the **watch mode's** promise-as-mutex protocol (`Watch.dfy`).

Code that changes state is a class or a method with loops, and each of its methods is proved against a
function of its input or old state. What the source promises is proved about those functions. Verify
everything with `dafny verify dfyconfig.toml`.

## Where the code does not do what it is for

Eight promises turn out to hold only under a condition. Each has a lemma at a failing input and a theorem
saying exactly when the code meets the promise.

| promise | holds exactly if | theorem | failing input |
|---|---|---|---|
| the matcher decides the glob relation for every pattern | the subject contains no `*` | `Wildcard.ExactOnStarFreeSubjects` | `Wildcard.MissesStarInSubject` |
| deblocking gives every list of lines back | not VB, or BLKSIZE > LRECL + 4 | `Blocking.LosslessForAllLines` | `Blocking.FullLineAtTightBlksize` |
| the streamed writer writes what the whole-string writer writes | not ASA, or no overflow record passes a record it can be told from; three blank lines between lines of text are needed for that, and are enough if encoding never makes text disappear | `MemberWriter.StreamedMatchesWhole` | `MemberWriter.StreamedReordersExample` |
| a streamed write ends holding nothing | no chunk it meets is undecodable | `Bpam.RunStreamed` | `Bpam.OneBadChunkExample` |
| every parse of a command tree ends | no command the words lead to has an exposed flag positional | `CommandTermination.EveryParseEnds` | `CommandTermination.BuilderExample` |
| a printed token stream lexes back to the same tokens | no `-`, `--`, `*`, and all strings can be shown | `Lexer.PrintAndLexAgain` | `Lexer.StarExample` |
| an integer argument keeps its text where text is asked for | it has no underscores, capitals, blanks or needless zeros | `ArgumentParser.IntegersKeepTheirText` | `ArgumentParser.LeadingZerosExample` |
| success means that every token was read | no help flag was met under hooks that refuse help | `CommandLaws.SuccessReadsAll` | `ArgumentParser.RefusedHelpExample` |

A flag positional is exposed if it is the command's first one and either only single-value positionals
come before it, or the command has some option that stops a list from taking every value that follows.
The streamed writer leaks because the base64 decoder throws inside the chunk loop (native/c/zds.cpp:4217),
past every close, while the server's dispatcher catches the exception and goes on
(native/c/server/dispatcher.cpp:82): ENQ, RESERVE, buffer, control block and DD stay held.

Two further findings: exclusion of the watch mode's batches rests on waiters of one promise resuming
before the next event (`Watch.EventBetweenWaitersBreaksExclusion`), and a failing FREE of the DD name
never reaches the return code, because the close wrapper keeps it in a shadowed variable; only the
diagnostics tell of it, and only if they hold no message yet (native/c/zds.cpp:2074-2085).

## Model

| member | source | states |
|---|---|---|
| Lexer.AnyTextLexedAgain | native/c/lexer.hpp:1000-1458 | For any text the lexer accepts without floats, printing each token on its own line and lexing again gives the same kinds and values if and only if every token prints back. |
| Lexer.PrintAndLexAgain | native/c/lexer.hpp:686-872 | The same for every list of tokens a lexer can make, whether or not it came from one text. |
| Lexer.PrintedAloneReads | native/c/lexer.hpp:686-714 | A token printed on its own lexes to itself if it prints back, as the parser relies on when it turns numbers into text. |
| Lexer.PrintedReads | native/c/lexer.hpp:686-714 | One printed token before a line break is read back whole, leaves the rest alone, and is the same token exactly if it prints back. |
| Lexer.PrintedValue | native/c/lexer.hpp:788-840 | A printed string literal has the value of the original exactly if its unescaped characters are printable, tab or carriage return. |
| Lexer.PrintedScans | native/c/lexer.hpp:1152-1223 | A printed string literal always scans to its own closing quote, whatever it contains. |
| Lexer.StarExample | native/c/lexer.hpp:686-714 | The text `*` lexes to a token that does not come back. |
| Lexer.PrintsAsWritten | native/c/lexer.hpp:842-872 | A text that lexes to one integer is printed as it was written if and only if it was written canonically. |
| Lexer.PrintedDecimalReads | native/c/lexer.hpp:842-872 | A printed decimal integer lexes to its value and base. |
| Lexer.PrintedBasedReads | native/c/lexer.hpp:1226-1422 | A printed hexadecimal or binary integer lexes to its value and base, and fits the number buffer. |
| Lexer.LexerMakesProducible | native/c/lexer.hpp:1050-1117 | What is true of every token the lexer produces: names that are not keywords, well-scanned strings, integers in range. |
| Lexer.TokensConsume | native/c/lexer.hpp:1000-1013 | Every token but the end token consumes input, so lexing terminates. |
| Lexer.AnyStringReads | native/c/lexer.hpp:1152-1223 | Every string, line breaks, NULs, quotes and backslashes included, can be written as a literal that lexes whole and has exactly that value. |
| Lexer.WrittenReads | native/c/lexer.hpp:618-683 | Escaping each character that has an escape gives well-formed literal text whose value is the string. |
| Lexer.ScanEnds | native/c/lexer.hpp:1160-1208 | A literal ends at the first quote that is not escaped; a line break or the end leaves it unclosed, and any other escape is refused. |
| Lexer.BlanksCountForNothing | native/c/lexer.hpp:1016-1047 | Blanks, and comments up to the end of their line, do not change the tokens. |
| Lexer.UnderscoresCountForNothing | native/c/lexer.hpp:1280-1291 | An underscore after the first digit does not change a number, except behind a leading 0 of a decimal. |
| Lexer.CapitalsCountAlike | native/c/lexer.hpp:1402-1420 | Capital hexadecimal digits are worth what small ones are. |
| Lexer.FloatsKeepTheirText | native/c/lexer.hpp:1293-1352 | Digits with a point or an exponent make one float token that keeps its text; only an exponent is marked. |
| Lexer.BareDashes | native/c/lexer.hpp:1064-1086 | One and two dashes alone are tokens of their own. |
| Tokenizer.Iterator.Next | native/c/lexer.hpp:112-131 | Advances by one character and keeps line and column what the text before the position makes them. |
| Tokenizer.PlacesCount | native/c/lexer.hpp:112-131 | A line break begins a new line; on it each character counts one column and a tab four. |
| Tokenizer.Iterator.EatWhitespaceAndComments | native/c/lexer.hpp:1016-1047 | Leaves exactly the text after blanks and `# ` comments. |
| Tokenizer.Iterator.EatQuoted | native/c/lexer.hpp:1152-1223 | Finds the closing quote, or the error the first bad character calls for. |
| Tokenizer.Iterator.EatDigits | native/c/lexer.hpp:1280-1291 | Copies digits without underscores into the number buffer, dropping what does not fit. |
| Tokenizer.Iterator.LexNumeric | native/c/lexer.hpp:1226-1422 | Prefixes, fraction, exponent and range: the token or error of the number at the front of the rest, and where it ends. |
| Tokenizer.Iterator.LexFlag | native/c/lexer.hpp:1064-1086 | Long flag, short flag or bare dashes, as the characters after the first dash decide. |
| Tokenizer.Iterator.NextToken | native/c/lexer.hpp:1050-1117 | Returns and consumes the first token of the rest of the text, or its error. |
| Tokenizer.Iterator.LexAll | native/c/lexer.hpp:1000-1013 | The tokens of the whole text, the end token last, or the first error. |
| Tokenizer.PrintBinary | native/c/lexer.hpp:850-868 | The 64-bit shift loop writes the binary numeral without leading zeros. |
| Tokenizer.PrintStringLiteral | native/c/lexer.hpp:788-840 | The printing loop writes the quoted form that the round trip is about. |
| Tokenizer.StringLiteralValue | native/c/lexer.hpp:618-683 | The unescaping loop gives the literal's value, the one that the written form of every string has, a trailing backslash standing for itself. |
| Levenshtein.LevenshteinDistance | native/c/parser.hpp:38-64 | The two-row loop returns the recursive edit distance. |
| Levenshtein.FillRow | native/c/parser.hpp:48-62 | One pass turns the row of distances of a prefix into that of the next prefix. |
| Levenshtein.DistanceIsShortest | native/c/parser.hpp:36-38 | The distance is the length of some chain of single-character edits, and no chain is shorter. |
| Levenshtein.Triangle | native/c/parser.hpp:36-64 | Triangle inequality for all strings. |
| Levenshtein.Symmetric | native/c/parser.hpp:36-64 | Symmetry for all strings. |
| Levenshtein.ZeroOnlyOnEqual | native/c/parser.hpp:36-64 | Zero exactly on equal strings. |
| Commands.SeveralAreText | native/c/parser.hpp:941-991 | A value for a multiple argument is text or nothing, so the parser's internal-error branches are dead; flags, dashes and the delimiter are never values. |
| Commands.AliasesFindOne | native/c/parser.hpp:1799-1824 | The alias loop finds a command exactly if that command alone has the alias. |
| CommandMeaning.SubcommandMeaning | native/c/parser.hpp:1785-1826 | For every list and word: a name finds the first command that bears it, whatever aliases say; else the one command with the alias is found, several make it ambiguous, none missing. |
| CommandMeaning.NameEnters | native/c/parser.hpp:1823-1834 | A word that names a subcommand, standing first, hands the parse of the rest to that subcommand. |
| CommandMeaning.AliasEnters | native/c/parser.hpp:1823-1834 | So does an alias only one subcommand has, if nobody bears it as a name. |
| CommandMeaning.WordRefused | native/c/parser.hpp:1805-1878 | An alias of several is refused everywhere; a word nobody answers to is refused by a pure group. |
| CommandMeaning.AliasSpellsFlag | native/c/parser.hpp:895-915 | An alias answers to a flag exactly if it spells it, with one dash and one letter or two dashes and a word. |
| CommandMeaning.ValueMeaning | native/c/parser.hpp:941-991 | A switch is on exactly for the text `true`; other options get the text a token stands for, a single uncoerced number its value; which tokens are values is listed. |
| CommandMeaning.OptionTakes | native/c/parser.hpp:1616-1790 | An option takes its flag and exactly the values that fit its kind. |
| CommandMeaning.OptionRefused | native/c/parser.hpp:1676-1705 | An option that needs a value is refused without one, or with a token that is none. |
| CommandMeaning.UnknownRefused | native/c/parser.hpp:1565-1613 | A flag nobody answers to is refused unless undeclared long flags are allowed. |
| CommandMeaning.DynamicTakes | native/c/parser.hpp:1469-1563 | An undeclared long flag takes one value or all that follow, as the command allows. |
| CommandMeaning.PositionalTakes | native/c/parser.hpp:1882-1957 | A value that is no subcommand goes to the next positional, with all that follow if that is a list. |
| CommandMeaning.OptionMeans | native/c/parser.hpp:1633-1788 | An option's final value in plain terms: true, the truth of a word, the worth of a token, or the list so far with the new texts behind. |
| CommandMeaning.PositionalMeans | native/c/parser.hpp:1903-1957 | A positional's value in the same terms. |
| CommandMeaning.DynamicMeans | native/c/parser.hpp:1506-1555 | An undeclared flag's value in the same terms. |
| CommandMeaning.BundleMeans | native/c/parser.hpp:1414-1462 | Letters behind one dash that are all switches are taken together, and each of them is on. |
| Commands.ItemsAreFronts | native/c/parser.hpp:1369-1959 | Whatever a round of the loop takes is a non-empty front of the tokens. |
| CommandLaws.TokensAreConserved | native/c/parser.hpp:1369-1973 | Command words, the items each command on the way took, and what is left, in order, are exactly the token list; each word is one the next command answers to. |
| CommandLaws.SuccessReadsAll | native/c/parser.hpp:2424-2443 | A parse succeeds with tokens unread if and only if it met a help flag and the hooks refused; with accepting hooks success means everything was read. |
| CommandLaws.HandlerRunsExactly | native/c/parser.hpp:1975-2111 | At most one handler runs, and one runs if and only if the command the words lead to has one, read its tokens to the end, got every required option and positional without conflict, and the hooks accept; positionals are filled in declared order. |
| CommandMeaning.HelpExactly | native/c/parser.hpp:2115-2130 | A parse ends in help if and only if a bundle holds a help flag, or the hooks accept a help flag or a complete group without handler. |
| CommandLaws.ConflictsSeen | native/c/parser.hpp:2015-2039 | The conflict scan finds nothing exactly if no two distinct given options conflict, whichever side declares it. |
| CommandLaws.RequiredSeen | native/c/parser.hpp:1975-1991 | The scan for missing options finds nothing exactly if an item was read for each required one. |
| CommandLaws.RequiredFilled | native/c/parser.hpp:1993-2013 | The scan for missing positionals finds nothing exactly if each required one got its item. |
| CommandLaws.LandedInOrder | native/c/parser.hpp:1882-1957 | The positional items of a parse are for the first declared positionals, one by one, each with a value. |
| CommandTermination.EveryParseEnds | native/c/parser.hpp:1369-1973 | For every token list the loops of a command tree come to an end after some number of rounds, if and only if no command its words lead to has a flag positional that can be come to. |
| CommandTermination.RoundMoves | native/c/parser.hpp:1369-1973 | A round of the loop leaves it, uses up tokens, or leaves every variable as it was. |
| CommandTermination.EndlessExactly | native/c/parser.hpp:1369-1973 | The iterated loop never ends exactly if it comes to a round that takes nothing; otherwise it ends within one round more than there are tokens. |
| CommandTermination.NoParseIsEndless | native/c/parser.hpp:458-486 | If positionals take values throughout the tree, as the functions that add them demand, every parse is over after one round more than there are tokens. |
| CommandTermination.BuilderExample | native/c/parser.hpp:258-268 | If the first positional was declared a flag through the builder, one token makes every round come back to the same state. |
| CommandTermination.SpinningIsExposed | native/c/parser.hpp:1882-1927 | Any endless parse has come to the first flag positional, with only single values before it or a flag to break a list. |
| CommandTermination.SpinTokensSpin | native/c/parser.hpp:1882-1927 | For every such positional there are tokens that make the loop endless. |
| CommandValues.LastDecides | native/c/parser.hpp:1633-1788 | The last item that names an argument decides its value: true for switches, the token's own value for single ones, what was there plus its texts for lists. |
| CommandValues.UnsetIsDefault | native/c/parser.hpp:1353-1367 | An argument no item names has its default. |
| CommandValues.ListsCollect | native/c/parser.hpp:1722-1771 | A list option holds its default followed by the texts of all its occurrences in order. |
| CommandValues.HandlerGets | native/c/parser.hpp:2072-2080 | Names being distinct, as registration keeps them, for each name a handler gets the dynamic value given under it if there is one, else what the items of its own command make of it. |
| CommandValues.HandlerGetsList | native/c/parser.hpp:1722-1771 | A list option reaches the handler as its default followed by all values given to it, in order. |
| CommandValues.DefaultsWereThere | native/c/parser.hpp:1993-2013 | With distinct names the last pass over unfilled positionals changes no value. |
| CommandRun.Run.TakeKeyword | native/c/parser.hpp:1616-1790 | One option and its values: state, position and errors are those of the item at the front. |
| CommandRun.Run.TakeDynamic | native/c/parser.hpp:1471-1563 | One undeclared long flag where those are allowed. |
| CommandRun.Run.TakeBundle | native/c/parser.hpp:1414-1462 | Combined short flags, up to the first letter that is unknown, help, or not a switch. |
| CommandRun.Run.TakePositional | native/c/parser.hpp:1882-1972 | One positional; a flag positional consumes nothing and changes nothing, and the loop goes on. |
| CommandRun.Run.TakeItem | native/c/parser.hpp:1369-1973 | One round: what it takes or how it stops is the reference step, and when it does not stop the new state is the successor of the old one. |
| CommandRun.Run.TakeRest | native/c/parser.hpp:1378-1403 | Everything after the delimiter is collected as printed text. |
| CommandRun.Run.ReadTokens | native/c/parser.hpp:1369-1973 | The loop reads exactly the items of the reference reading and leaves the state those items determine; it is cut off only in a state the original never leaves. |
| CommandRun.HasConflict | native/c/parser.hpp:2015-2037 | The nested scan finds a conflict exactly if there is one. |
| CommandRun.FillPositionals | native/c/parser.hpp:1993-2013 | Missing positionals get their defaults, or the first required one is reported. |
| CommandRun.ParseCommand | native/c/parser.hpp:1336-2135 | Status, handler call, passthrough and leftover of the recursive parser are those of the reference parse. |
| ArgumentParser.PassedVerbatim | native/c/parser.hpp:2391-2415 | On success the passthrough list is exactly the arguments after the first `--`, verbatim and in order, at any subcommand depth; empty if there is none. |
| ArgumentParser.DelimiterIsNoValue | native/c/parser.hpp:1378-1403 | No option and no positional takes the delimiter as a value; only the passthrough item contains it. |
| ArgumentParser.IntegersKeepTheirText | native/c/parser.hpp:2305-2363 | An integer argument is worth its number; where text is asked for it keeps its own text if and only if it was written without underscores, capitals, blanks or needless zeros. |
| ArgumentParser.LeadingZerosExample | native/c/parser.hpp:2305-2363 | `007` is worth 7 and becomes the text `7`. |
| ArgumentParser.NamesKeepTheirText | native/c/parser.hpp:2305-2363 | An argument taken as a name is worth its own text. |
| ArgumentParser.AnyStringReaches | native/c/parser.hpp:2342-2363 | Any string can be written between quotes, on a line or as an argument, and is worth itself to every kind of option. |
| ArgumentParser.ArgumentShapes | native/c/parser.hpp:2342-2363 | Two dashes and a word, one dash and a word, quotes, the words of truth and a lone dash each become their token. |
| ArgumentParser.NumbersAreTaken | native/c/parser.hpp:2307-2338 | What lexes to nothing but a number is that number; what does not lex is a name. |
| ArgumentParser.LeftoverNeedsRefusal | native/c/parser.hpp:2430-2442 | The check for unexpected arguments fires if and only if hooks refused a help flag. |
| ArgumentParser.RefusedHelpExample | native/c/parser.hpp:1619-1634 | Under hooks that refuse help, `--help x` succeeds with both tokens unread and is reported as unexpected arguments. |
| ArgumentParser.Tokenize | native/c/parser.hpp:2391-2415 | Arguments up to the delimiter are classified, those after it become names. |
| ArgumentParser.ParseArguments | native/c/parser.hpp:2365-2444 | The argument vector parse returns the status and makes the handler calls of the reference parse, and on success passes the same arguments through. |
| ArgumentParser.ParseCommandLine | native/c/parser.hpp:2446-2535 | The command line parse lexes, drops the end token and does the same, or returns the lexer's error. |
| Registration.Registry.RegisterArgument | native/c/parser.hpp:1096-1178 | All or nothing: an acceptable declaration is added with its automatic negation, any other leaves no trace; names and aliases stay unambiguous. |
| Registration.NegationIsNew | native/c/parser.hpp:1160-1170 | The clash check for the automatic negation can never fire. |
| Registration.AcceptedStaysRegistered | native/c/parser.hpp:1096-1178 | Every accepted declaration keeps names distinct, aliases unshared and negations next to their switches. |
| Registration.RefusedExactly | native/c/parser.hpp:1098-1158 | A declaration is refused exactly for a reserved or taken name, or a reserved or taken alias that is not empty. |
| Registration.AddedMeans | native/c/parser.hpp:1120-1178 | A switch without default is off; one that is on by default brings a negation that is off. |
| Registration.AliasLeadsHome | native/c/parser.hpp:883-919 | An alias finds its own argument if and only if no earlier option bears the alias's word as its name. |
| Wildcard.IsMatch | native/c/zds.cpp:2420-2462 | The four-pointer loop terminates and, for subjects without `*`, decides the recursive glob relation. |
| Wildcard.ExactOnStarFreeSubjects | native/c/zds.cpp:2420-2462 | For a given subject the matcher is right about every pattern if and only if the subject has no `*`. |
| Wildcard.ScanIsGlob | native/c/zds.cpp:2420-2462 | Backtracking only to the last star loses no match. |
| Wildcard.ForgetEarlierStar | native/c/zds.cpp:2435-2440 | Once a later star is reached, earlier ones may be forgotten. |
| Wildcard.NoRoomToBacktrack | native/c/zds.cpp:2442-2461 | When the subject ends inside a segment, only trailing stars can still match. |
| Wildcard.MissesStarInSubject | native/c/zds.cpp:2428-2433 | For every subject with a `*`, a pattern that matches and is refused. |
| Directory.WalkFindsLayout | native/c/zds.cpp:2556-2655 | Any well-formed laid-out block gives back exactly its entries. |
| Directory.ListsWhatWasLaidOut | native/c/zds.cpp:2542-2663 | Blocks laid out from entries with given names select exactly the members whose names the pattern means, in order, each under its full name with its statistics if wanted. |
| Directory.FieldGivesName | native/c/zds.cpp:2589-2598 | The blank-filled field of a name of up to eight bytes gives that name back. |
| Directory.NameIsFront | native/c/zds.cpp:2589-2598 | Any raw field gives its longest front without blank or terminator. |
| Directory.LiteralPattern | native/c/zds.cpp:2509-2510 | A pattern without wildcards lists exactly the names it spells, its small letters standing for capitals. |
| Directory.FiveBitsOfHalfwords | native/c/zds.cpp:2577-2587 | Five bits of the information byte count the halfwords of user data. |
| Directory.Listing.WalkBlock | native/c/zds.cpp:2556-2655 | For arbitrary bytes the walk stays inside the block and terminates; the list holds the selected members found so far. |
| Directory.ListMembers | native/c/zds.cpp:2542-2663 | Over all blocks: the first `max_entries` selected members in order, and a warning whose detail says exactly whether more were selected or, that not being so, some block count was corrupt. |
| Directory.ListedByMeaning | native/c/zds.cpp:2600-2600 | A member is listed exactly if the upper-cased pattern matches its name as a glob. |
| Blocking.DeblockUndoesBlocking | native/c/zam.c:537-752 | For all lines, deblocking the written blocks gives back, in order, the records that were kept. |
| Blocking.LosslessIffAllFit | native/c/zam.c:636-675 | Nothing is lost exactly if every record passes the size test. |
| Blocking.LosslessForAllLines | native/c/zam.c:207-252 | Every list of lines survives if and only if the data set is not VB or BLKSIZE > LRECL + 4. |
| Blocking.RecordKeepsFront | native/c/zam.c:676-706 | A record keeps the front of its line, as much as there is room for, and a fixed one is filled with blanks. |
| Blocking.BlocksAreProper | native/c/zam.c:537-752 | No block is empty or longer than BLKSIZE, each BDW is its block's length and the RDWs tile it. |
| Blocking.FullLineAtTightBlksize | native/c/zam.c:660-675 | At BLKSIZE = LRECL + 4 a full-length line vanishes and an empty block is written. |
| Blocking.IoCtrl.HandleFixed | native/c/zam.c:537-574 | One fixed record in place: cut, blank-padded, written when the block is full. |
| Blocking.IoCtrl.HandleVariable | native/c/zam.c:636-674 | One variable record in place, writing the block first when it does not fit. |
| Blocking.IoCtrl.WriteRecord | native/c/zam.c:676-706 | Buffer and block list become those of the reference step. |
| Blocking.IoCtrl.WriteFlush | native/c/zam.c:708-752 | The last block is written, or nothing if there is none. |
| Blocking.WriteMember | native/c/zam.c:537-752 | A whole successful run writes blocks that deblock to the kept records. |
| Asa.AsaStreamState.PrepareLine | native/c/zds.cpp:1268-1342 | One line's control character and overflow records, and the blank count after it. |
| Asa.PrinterKeepsUp | native/c/zds.cpp:1268-1389 | A printer that obeys the emitted control characters puts every non-empty line on the page and row it has in the text. |
| MemberWriter.WriteMember | native/c/zds.cpp:1570-1717 | The whole-string loops give the reference records and truncation list. |
| MemberWriter.PlainMemberKeepsLines | native/c/zds.cpp:1613-1693 | Without ASA, for any lines joined with newlines: one record for each, blank ones included, in order, and one for a non-empty unfinished last line, each the line without its carriage return, encoded; failure exactly if one cannot be encoded; the truncated numbers are exactly those of the records that are too long. The streamed path writes the same. |
| MemberWriter.TextIsLines | native/c/zds.cpp:1613-1620 | Every text is its lines, each with a newline, and an unfinished rest. |
| MemberWriter.WriteMemberStreamed | native/c/zds.cpp:4141-4358 | For every way of cutting the input into chunks the streamed path writes the reference result of the decoded text, which is the whole-string result if and only if that fails or no overflow record is swapped; without a triple gap none is. |
| MemberWriter.StreamedMatchesWhole | native/c/zds.cpp:4247-4276 | For every encoder: streamed and whole agree on failure and truncated lines, and on records if and only if no overflow record passes a record it can be told from; that needs an ASA text with three blank lines between lines of text, which suffice if encoding never makes text disappear. |
| MemberWriter.StreamedReordersExample | native/c/zds.cpp:4247-4276 | A member on which the two differ. |
| MemberWriter.StreamWriter.TakeChunk | native/c/zds.cpp:4205-4296 | The carried partial line and written lines after a chunk are those of the text so far. |
| MemberWriter.MemberKeepsPages | native/c/zds.cpp:1613-1693 | For every encoder, the whole ASA member's records are the converted lines, overflow records unencoded, and these render to the text's pages and rows. |
| MemberWriter.AsaTruncation | native/c/zds.cpp:1655-1672 | An ASA member reports exactly the lines of text, counted from 1, whose record with its control character is too long. |
| MemberWriter.LinesResume | native/c/zds.cpp:4205-4296 | Splitting text into lines can be resumed at any cut. |
| Bpam.EveryObtainHasOneRelease | native/c/zam.c:434-535 | In any log the monitor accepts, each obtain has exactly one release, except for what is still held. |
| Bpam.WriteMember | native/c/zds.cpp:1570-1717 | With any service failing at any step, the log of a whole run keeps the discipline (RESERVE released before ENQ, nothing used after release) and ends holding nothing; the return code is that of the first call that failed, else a warning if lines were cut, else 0. If no call failed, the services called are exactly those a member needs, in order, as a function of its records. |
| Bpam.RunStreamed | native/c/zds.cpp:4141-4358 | The streamed run ends holding everything if a chunk it meets is undecodable and nothing in all other cases; with all services working it meets one exactly if all chunks before it encode. Without an exception its code is the first failure, and without a failure its calls are exactly those its records need. |
| Bpam.WriteMemberStreamed | native/c/zds.cpp:4210-4218 | The same in numbers: after an exception each resource lacks exactly its one release call. |
| Bpam.OneBadChunkExample | native/c/zds.cpp:4210-4218 | One bad chunk and no failing service: the ENQ and the RESERVE are never released. |
| Bpam.IoCtrl.CloseOutput | native/c/zam.c:1050-1118 | Close releases all but the DD and returns the code of the first step that failed; from an open DCB without failure it makes exactly the calls of a complete close, the last block included. |
| Bpam.OpenOutput | native/c/zam.c:434-535 | Open leaves a control block that agrees with what is held, however far it got; success means that all its calls were made and everything is held. |
| Bpam.OpenMember | native/c/zdsm.c:261-282 | A failed open closes what was half opened and frees the DD, leaving nothing held, and returns the first failing step's code. |
| Bpam.CloseMember | native/c/zds.cpp:2048-2089 | Close leaves nothing held and returns the first failing step's code, the final FREE excepted. |
| Bpam.IoCtrl.FinalizeDcb | native/c/zam.c:1008-1048 | Statistics, then STOW if and only if they succeeded, then CLOSE, and no other call; its return code is the first failure among them. |
| Base64.DecodeUndoesEncode | native/c/zbase64.h:141-305 | Decoding the encoding of any byte string gives it back. |
| Base64.EncodeBytes | native/c/zbase64.h:141-202 | The unrolled loop and its tail equal the four-by-six-bits definition. |
| Base64.DecodeBytes | native/c/zbase64.h:235-305 | The table-driven loop decodes or rejects as the block definition does. |
| Base64.AcceptsExactly | native/c/zbase64.h:235-305 | The decoder accepts exactly whole quads of alphabet characters with padding in any quad's last two places. |
| Base64.BuildDecodeTable | native/c/zbase64.h:34-96 | The EBCDIC table inverts the alphabet and marks everything else invalid. |
| Base64.ShiftsSelectGroups | native/c/zbase64.h:160-171 | The shifts and masks on the combined word select the four sextets. |
| Base64.EncodeStream | native/c/zbase64.h:204-222 | Encoding chunk by chunk with carried bytes, then the last leftover, equals encoding at once. |
| Base64.DecodeStream | native/c/zbase64.h:307-325 | Decoding chunk by chunk equals decoding at once when the total length is a multiple of four. |
| Base64.LeftOver.Store | native/c/zbase64.h:125-138 | Keeps back exactly the bytes after the last full group. |
| Blockwise.Resume | native/c/zbase64.h:110-138 | Any block-wise code can be resumed at any cut by carrying the remainder. |
| JsonText.UnescapeUndoesEscape | native/c/zjson.hpp:1256-1395 | Unescaping the escaped text is the identity exactly on safe text, and is rejected on all other. |
| JsonText.EscapeMakesStringBody | native/c/zjson.hpp:1256-1305 | Escaping always yields a string body in the sense of section 7 of RFC 8259. |
| JsonText.EscapesByLetter | native/c/zjson.hpp:1256-1395 | The two-character escapes are those of section 7 of RFC 8259, both ways. |
| JsonText.EscapesByNumber | native/c/zjson.hpp:1340-1380 | A numbered escape with two zeros in front means the byte of its other digits, unless that is a control. |
| JsonText.HexDigitsByCode | native/c/zjson.hpp:1340-1380 | The hexadecimal digits, small and capital, in IBM-1047. |
| JsonText.NumbersAreLenient | native/c/zjson.hpp:1340-1380 | A blank, a plus sign or a prefix among the four characters of a numbered escape is accepted, as `strtoul` does. |
| JsonText.EscapeJsonString | native/c/zjson.hpp:1256-1305 | The escaping loop. |
| JsonText.UnescapeJsonString | native/c/zjson.hpp:1307-1395 | The unescaping loop, including what it rejects. |
| JsonText.IsJsonSafeText | native/c/json_output.cpp:41-66 | Accepts exactly the safe texts. |
| JsonText.ResolvePayload | native/c/json_output.cpp:68-105 | When a payload is present, unescaping it, and decoding it when marked, gives the first 8 MiB of captured output. |
| JsonText.RecoversText | native/c/json_output.cpp:214-237 | Both forms of the payload recover the text. |
| JsonText.EncodeIsSafe | native/c/json_output.cpp:95-105 | Base64 text always passes the safety test. |
| JsonIndent.AddJsonIndentation | native/c/zjson.hpp:1642-1708 | The printing loop gives the reference text, or the exception for a negative level. |
| JsonIndent.PrettyPrintingPreserves | native/c/zjson.hpp:1642-1708 | For compact text, removing layout outside strings from the output gives the input back; string contents are untouched; the level ends at the nesting depth, zero when balanced. |
| JsonIndent.LayoutIsExact | native/c/zjson.hpp:1642-1708 | Where layout stands: a line break with spaces times depth blanks behind opening brackets and commas and before closing ones, one blank behind colons, and nothing else. |
| JsonIndent.LiteralsStand | native/c/zjson.hpp:1650-1672 | A string literal, escaped quotes and all, is printed as it stands and leaves the printer outside strings. |
| JsonIndent.LevelIsDepth | native/c/zjson.hpp:1652-1700 | The level is the nesting depth, and printing throws if and only if it would go negative. |
| JsonIndent.PrintingFiltered | native/c/zjson.hpp:1642-1708 | For any text, whatever filter drops the layout sees the same characters before and after. |
| Closure.CollectAllProperties | scripts/generateTypes.ts:179-211 | Terminates on every extends graph, cyclic or not, and returns without duplicates exactly the property names declared by reachable interfaces. |
| Closure.Collector.CollectFromBase | scripts/generateTypes.ts:184-207 | The recursive closure's effect on the visited set and collected properties. |
| Closure.VisitsExactlyReachable | scripts/generateTypes.ts:184-207 | The depth-first walk visits each reachable interface once and no other. |
| Closure.CollectsReachableProperties | scripts/generateTypes.ts:179-211 | The names collected on that walk are exactly those of reachable interfaces. |
| Closure.InheritedWins | scripts/generateTypes.ts:199-205 | Of several declarations of a property the first in visiting order is kept, and the interface itself is visited last. |
| Closure.StripsToLastDot | scripts/generateTypes.ts:36-38 | The stripped name is the part after the last dot, or the whole name if there is none. |
| Watch.EveryRunIsSafe | scripts/buildTools.ts:249-324 | In every run at most one batch is in flight, and each file's latest change is pending or was taken by exactly one batch. |
| Watch.StepKeepsExclusion | scripts/buildTools.ts:278-324 | Each step keeps at most one batch in flight, exactly while the mutex is pending. |
| Watch.StepKeepsAccounts | scripts/buildTools.ts:249-305 | Each step keeps every latest change accounted for. |
| Watch.NothingForgotten | scripts/buildTools.ts:249-324 | Once no call is due or waiting, every recorded change was taken by exactly one batch. |
| Watch.EventBetweenWaitersBreaksExclusion | scripts/buildTools.ts:278-286 | If an event came between two waiters of one promise, two batches would be in flight. |
| Watch.TwoWaitersComeUp | scripts/buildTools.ts:249-286 | A run that does bring two waiters. |

## Left out

- Lexer.PrintAndLexAgain: leaves floating-point tokens out, because their printed form depends on the stream's precision.
- Bpam.CloseMember: does not claim that a failing FREE changes the return code; it does not. Diagnostics are not modelled.
- iconv is a function parameter from a line to its encoding or failure; other exceptions than the decoder's (such as exhausted storage) are not modelled.
- Character classes of the lexer are those of ASCII; the EBCDIC code page, token spans and error locations are not modelled.
- Values, `ERANGE` and format errors of floats: a float token keeps its text. Integers beyond the 127-character buffer are cut as in the code.
- The number buffer is a bounded string passed along, not an array.
- Pre-command hooks are one function of the command and the kind of request; the code consults them at most once per parse. A handler is recorded with its arguments, its exit code is not modelled.
- JSON capture and inheritance of `--json`, the envelope around a result, and `get_value` for switches that are on by default.
- Error messages, suggestions, help text, bash completion and logging; errors are told apart by kind.
- Building the command tree (`add_command`, privileges, hooks propagation) and the automatic `--json` argument; subcommands are a list in name order.
- HLASM macros, SVC 99, RACF and the access methods behind BPAM: each call's answer is an arbitrary reply. ISPF statistics contents are not modelled.
- Record format U shares the variable path as in the code; its BDW is not judged.
- How the effective record length is derived (native/c/zds.cpp:72-75): it already leaves room for the ASA byte that the check counts again; the model takes the length as given.
- Catalog, DSCB, job, console, key ring and security functions: mostly system control blocks.
- The watch model starts with one call due instead of running it at once, which allows more runs; closing the connection, SFTP and the build command are not modelled. It is a step machine rather than a class, because its subject is the interleaving.
- TypeScript parsing and schema printing around the closure; the interface table is given.
