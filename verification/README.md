# Verified models of the systemd port and the libraries it carries

This project models the parts of the repository with the most state and branching, and proves what
they are for. There are three groups.

**CRC engine** (`Words`, `CrcTheory`, `Crc`, `CrcPolynomials`). A machine word is a sequence of
bits, lowest first, of any length; the CRC's width is any number of its low bits. `CrcBasic` divides
one bit at a time, `CrcOptimal` one byte at a time through `CrcTable`, optionally with the remainder
stored in reverse, and `AugmentedCrc` is the third formulation. The fast forms refine the simple one
for every width (one bit upwards), polynomial, start value, final value, reflection and message,
whatever stands in the machine word above the width. The simple one computes remainders of
polynomials over GF(2) (`CrcPolynomials`). The header's predefined types are constants; `CRC_32` is
the CRC of section 8.1.1.6.2 of ITU-T V.42.

**Option handling** (`Options`, `Positional`, `CommandLine`, `CommandLineLaws`, `Cmdline`,
`Grammar`, `Readings`, `Winmain`, `Splitting`, `ConfigFile`, `Store`, `FormatParagraph`). The
command-line parser in its default style: `Cmdline` has the methods that erase tokens from a shared
vector, `CommandLine` says what each step yields, `CommandLineLaws` proves what a run guarantees: no
token is lost or moved, tokens behind the terminator that is reached stay positional, every option
ends up with a number of values that fits its description. `Grammar` says over characters and
lookups which command lines there are and what they mean, and `Readings` that the parser accepts
exactly these. `ConfigFile` keeps the prefix set that is searched with one probe, and reads files
back as they were printed. `Store` is the map of values with finality over several calls, `Winmain`
the Windows argument splitter, which `Splitting` specifies position by position, and
`FormatParagraph` the word wrapper.

**The service manager** (`UnitPool`, `Dependencies`, `Visiting`, `Enabling`, `ServiceThread`,
`Attempts`, `StringList`, `Journal`, `Escape`). `UnitPool` has the pool of units as objects whose
dependency vectors grow, the passes over a map that itself grows under the iterator, and the
recursive enabling of a unit, with the services that are registered as part of its state.
`Dependencies` says when following the unit files ends, `Visiting` which units then come up and how
often, and `Enabling` which of them are handed to the service manager, given what is registered
already. `ServiceThread` is the loop of attempts of the service wrapper, with processes as answers
that an attempt is given, and `Attempts` says what attempts and runs come to. `StringList` is the
double-NUL list, written on one side and scanned on the other, `Journal` the line buffer behind the
journal streams, and `Escape` the in-place escaper.

`Seqs`, `StringOrder` and `Wrappers` hold what the others share: facts about sequences, the order in
which sets and maps of strings are traversed, and optional values and results.

Code that works step by step is modelled by methods with loops over the same variables, each proved
equal to a function; the laws are lemmas about those functions. `dafny verify dfyconfig.toml` checks
everything.

## What the proofs found

- The check of `IsEnabled` at the end of `Enable` keeps a unit that several others require from
  being registered twice (`Enabling.NeverTwice`). It does so through the service manager: a service
  that this refuses is handed over again for every chain of dependencies that leads to its unit
  (`Enabling.OnceIff`).
- `Enable` does not look for cycles. It ends whenever every unit met on the way exists and none is
  on a cycle, which is exactly when the units can be ranked (`Dependencies.RankedIff`).
- The ExecStartPost loop reads the flags of ExecStartPre (`exec/service_exec.cpp:838`), and reads
  past that vector when there are more commands than flags (`Attempts.PostFlagsIff`).
- Restart=on-failure does what Restart=on-success does (`Attempts.RestartOnCode`), and a failure to
  read an exit code counts as code 0 (`ServiceThread.ProcessResult.Code`).
- A single `!` in front of a command takes the next character with it, so the command survives
  exactly when none is left unpaired at the end of the special characters
  (`ServiceThread.CommandWholeIff`), and `!-cmd` runs the command without ignoring its failure
  (`ServiceThread.PrefixesTakenIff`).
- A variable with a line break in its value does not reach the wrapper's map
  (`StringList.EnvironmentRoundTripIff`).
- `crc_xmodem_type` is declared with the polynomial 0x8408, which has no constant term, so it misses
  bursts that the other predefined types detect (`Crc.PredefinedTypes`).
- An option description without a short name is in full match with the empty name
  (`Options.Description.Match`); the callers modelled here never look that name up.
- A `--` that an option takes as its value does not end option parsing; the terminator removed from
  the tokens is the one that the main loop reaches (`CommandLineLaws.RunConserves`).
- A section line `[]` makes the configuration reader look at the last character of an empty string;
  the model reports it as an error of its own (`ConfigFile.Error.EmptySection`).

## Model

| member | source | states |
|---|---|---|
| `Crc.Reflect` | exec/packages/boost.1.66.0.0/lib/native/include/boost/crc.hpp:306-326 | The loop reverses the low bits of a word of any width and clears the rest |
| `Crc.CrcBasic.constructor` | exec/packages/boost.1.66.0.0/lib/native/include/boost/crc.hpp:133-168 | A computer starts with the initial remainder it is given |
| `Crc.CrcBasic.ResetTo` | exec/packages/boost.1.66.0.0/lib/native/include/boost/crc.hpp:706-715 | The remainder becomes the given one |
| `Crc.CrcBasic.Reset` | exec/packages/boost.1.66.0.0/lib/native/include/boost/crc.hpp:717-725 | The remainder becomes the initial one again |
| `Crc.CrcBasic.ProcessBit` | exec/packages/boost.1.66.0.0/lib/native/include/boost/crc.hpp:727-751 | Cut to its width, the remainder makes one division step over GF(2), whatever stands in the machine word above the width |
| `Crc.CrcBasic.ProcessBits` | exec/packages/boost.1.66.0.0/lib/native/include/boost/crc.hpp:753-770 | The chosen low bits of a byte are divided, highest first |
| `Crc.CrcBasic.ProcessByte` | exec/packages/boost.1.66.0.0/lib/native/include/boost/crc.hpp:772-782 | A whole byte is divided, in either bit order |
| `Crc.CrcBasic.ProcessBlock` | exec/packages/boost.1.66.0.0/lib/native/include/boost/crc.hpp:784-812 | A block is divided as the sequence of its bytes' bits |
| `Crc.CrcBasic.Checksum` | exec/packages/boost.1.66.0.0/lib/native/include/boost/crc.hpp:814-823 | The report is the cut remainder, reflected or not, xor-ed with the final value, with zeros above the width |
| `Crc.CrcTable.constructor` | exec/packages/boost.1.66.0.0/lib/native/include/boost/crc.hpp:481-486 | A table starts unfilled and well-formed |
| `Crc.CrcTable.Divide` | exec/packages/boost.1.66.0.0/lib/native/include/boost/crc.hpp:507-528 | The inner loop is the division of one byte's bits from zero, for every width |
| `Crc.CrcTable.EntryFor` | exec/packages/boost.1.66.0.0/lib/native/include/boost/crc.hpp:530-531 | Each dividend's division is stored where the reflected or plain index will look for it |
| `Crc.CrcTable.InitTable` | exec/packages/boost.1.66.0.0/lib/native/include/boost/crc.hpp:491-536 | After the first call every one of the 256 entries is the division of its index; later calls change nothing |
| `Crc.IndexDirect` | exec/packages/boost.1.66.0.0/lib/native/include/boost/crc.hpp:588-592 | The index of the plain form is the byte xor the top eight bits of the remainder, widths below eight included, junk above the width ignored |
| `Crc.IndexReflected` | exec/packages/boost.1.66.0.0/lib/native/include/boost/crc.hpp:576-578 | The index of the reflected form is the byte xor the top bits of the un-reflected remainder |
| `Crc.ShiftOutCut` | exec/packages/boost.1.66.0.0/lib/native/include/boost/crc.hpp:580-582 | Shifting a byte out of the stored remainder is shifting it out of the un-reflected one, and keeps the word clean above the width |
| `Crc.TableStepDirect` | exec/packages/boost.1.66.0.0/lib/native/include/boost/crc.hpp:954-965 | One table step of the plain form equals eight bit-serial steps |
| `Crc.TableStepReflected` | exec/packages/boost.1.66.0.0/lib/native/include/boost/crc.hpp:954-965 | One table step of the reflected form equals eight bit-serial steps on the un-reflected remainder |
| `Crc.CrcOptimal.constructor` | exec/packages/boost.1.66.0.0/lib/native/include/boost/crc.hpp:832-843 | The un-reflected stored remainder is the initial one and the table is filled |
| `Crc.CrcOptimal.Reset` | exec/packages/boost.1.66.0.0/lib/native/include/boost/crc.hpp:918-929 | The un-reflected stored remainder is the given one |
| `Crc.CrcOptimal.GetInterimRemainder` | exec/packages/boost.1.66.0.0/lib/native/include/boost/crc.hpp:905-916 | The interim remainder reported is the bit-serial one |
| `Crc.CrcOptimal.ProcessByte` | exec/packages/boost.1.66.0.0/lib/native/include/boost/crc.hpp:931-942 | One byte through the table is one byte of bit-serial division |
| `Crc.CrcOptimal.ProcessBlock` | exec/packages/boost.1.66.0.0/lib/native/include/boost/crc.hpp:944-966 | A block through the table is the bit-serial division of all its bits |
| `Crc.CrcOptimal.Checksum` | exec/packages/boost.1.66.0.0/lib/native/include/boost/crc.hpp:984-995 | The report is that of the bit-serial computer with the same remainder |
| `Crc.CrcBytes` | exec/packages/boost.1.66.0.0/lib/native/include/boost/crc.hpp:1020-1040 | For every width, polynomial, initial and final value, both reflections and every buffer, the table-driven checksum is the bit-serial one |
| `Crc.AugmentedByte` | exec/packages/boost.1.66.0.0/lib/native/include/boost/crc.hpp:1064-1073 | One round of the augmented form is eight augmented steps |
| `Crc.AugmentedCrc` | exec/packages/boost.1.66.0.0/lib/native/include/boost/crc.hpp:1045-1076 | The whole augmented run, cut to the width |
| `Crc.TableStepAugmented` | exec/packages/boost.1.66.0.0/lib/native/include/boost/crc.hpp:1069-1072 | Table step of the augmented form against its bit-serial form |
| `Crc.AugmentedCrcLaws` | exec/packages/boost.1.66.0.0/lib/native/include/boost/crc.hpp:1043-1076 | From zero: over message and zero bytes it is the plain checksum; over message and any tail it is zero exactly when the tail is that checksum, big-endian |
| `Crc.AugmentedCrcStart` | exec/packages/boost.1.66.0.0/lib/native/include/boost/crc.hpp:1043-1076 | From any start: over message and zero bytes it is the direct form started from the start's own division |
| `Crc.PlainChecksumIsDivision` | exec/packages/boost.1.66.0.0/lib/native/include/boost/crc.hpp:1020-1040 | The plain checksum is the division of the message from zero |
| `Crc.ConstantTermDetects` | exec/packages/boost.1.66.0.0/lib/native/include/boost/crc.hpp:93-98 | A polynomial with constant term tells apart any two messages that differ in one burst no longer than the width |
| `Crc.NoConstantTermMisses` | exec/packages/boost.1.66.0.0/lib/native/include/boost/crc.hpp:93-98 | Without it some burst goes unnoticed, for every width, initial and final value and both reflections |
| `Crc.DetectsBurstsIff` | exec/packages/boost.1.66.0.0/lib/native/include/boost/crc.hpp:93-98 | For all parameters of every width, every burst no longer than the width changes the checksum exactly when the polynomial has a constant term |
| `Crc.PredefinedTypes` | exec/packages/boost.1.66.0.0/lib/native/include/boost/crc.hpp:93-98 | The predefined types detect bursts, except crc_xmodem_type, whose polynomial 0x8408 is even |
| `CrcPolynomials.StepsDivide` | exec/packages/boost.1.66.0.0/lib/native/include/boost/crc.hpp:727-751 | Bit-serial division computes a quotient and the remainder of start and message, as polynomials, by the divisor with its highest term |
| `CrcPolynomials.DivisionUnique` | exec/packages/boost.1.66.0.0/lib/native/include/boost/crc.hpp:727-751 | Such a quotient and remainder are unique |
| `CrcPolynomials.ChecksumIsRemainder` | exec/packages/boost.1.66.0.0/lib/native/include/boost/crc.hpp:1020-1040 | Bit by bit the checksum is the remainder, read from the end that reflection asks for, with the final value added; the message is taken byte after byte in the bit order that reflection asks for |
| `CrcPolynomials.RemainderExists` | exec/packages/boost.1.66.0.0/lib/native/include/boost/crc.hpp:1020-1040 | Every message has such a division |
| `CrcTheory.StepsLinear` | exec/packages/boost.1.66.0.0/lib/native/include/boost/crc.hpp:727-751 | Bit-serial division is linear over GF(2) |
| `CrcTheory.BlockStep` | exec/packages/boost.1.66.0.0/lib/native/include/boost/crc.hpp:954-965 | Only the division of (top bits xor block) from zero is needed to divide a block of any length |
| `CrcTheory.AugBlockStep` | exec/packages/boost.1.66.0.0/lib/native/include/boost/crc.hpp:1066-1072 | The same for the augmented form, where the block enters at the bottom |
| `CrcTheory.AugmentedIsDirect` | exec/packages/boost.1.66.0.0/lib/native/include/boost/crc.hpp:1043-1076 | Augmented division over message and zeros is the direct division from x^n times the start |
| `CrcTheory.AugmentedTail` | exec/packages/boost.1.66.0.0/lib/native/include/boost/crc.hpp:1043-1076 | A tail is xor-ed onto the remainder of the message and zeros |
| `CrcTheory.BurstsDetectedIff` | exec/packages/boost.1.66.0.0/lib/native/include/boost/crc.hpp:93-98 | For all remainders and pairs of messages: bursts change the remainder exactly when the constant term is there |
| `Winmain.SkipSpaces` | exec/packages/boost_program_options-src.1.66.0.0/lib/native/src/winmain.cpp:26-29 | White space is skipped, nothing else |
| `Winmain.AddPending` | exec/packages/boost_program_options-src.1.66.0.0/lib/native/src/winmain.cpp:56-61 | Backslashes that no quote follows stand for themselves |
| `Winmain.SplitWinmain` | exec/packages/boost_program_options-src.1.66.0.0/lib/native/src/winmain.cpp:21-86 | The one-loop splitter is the character-wise scan |
| `Winmain.ScanBody` | exec/packages/boost_program_options-src.1.66.0.0/lib/native/src/winmain.cpp:39-55 | The inside of a quoted argument, its backslash runs doubled before quotes and the end, reads back as the text |
| `Winmain.ScanBare` | exec/packages/boost_program_options-src.1.66.0.0/lib/native/src/winmain.cpp:55-73 | Text without quotes, backslash runs and white space reads as itself |
| `Winmain.ScanGap` | exec/packages/boost_program_options-src.1.66.0.0/lib/native/src/winmain.cpp:62-69 | White space outside quotes ends exactly one argument |
| `Winmain.SplitUndoesQuoting` | exec/packages/boost_program_options-src.1.66.0.0/lib/native/src/winmain.cpp:15-86 | Splitting returns the arguments however each was written, quoted or bare, with any white space between and around |
| `Winmain.QuoteAllRoundTrip` | exec/packages/boost_program_options-src.1.66.0.0/lib/native/src/winmain.cpp:15-86 | For every list of arbitrary strings, empty ones included: quote all, join with spaces, split, and the list is back |
| `Splitting.SplitIsArguments` | exec/packages/boost_program_options-src.1.66.0.0/lib/native/src/winmain.cpp:15-86 | For every input: white space outside quotes separates, every stretch between is one argument, and each character adds itself but delimiting quotes and every other backslash before a quote |
| `Options.Description.Match` | exec/packages/boost_program_options-src.1.66.0.0/lib/native/src/options_description.cpp:72-121 | The branches of match amount to: full match by long or short name, approximate by pattern or abbreviation, else none |
| `Options.FindNothrow` | exec/packages/boost_program_options-src.1.66.0.0/lib/native/src/options_description.cpp:330-379 | The linear search returns the only full match, else the only approximate one, else nothing, and is ambiguous in exactly the other cases |
| `Options.FoundMatches` | exec/packages/boost_program_options-src.1.66.0.0/lib/native/src/options_description.cpp:330-379 | A found option matches and no other is in full match; nothing found means that none matches |
| `Options.MatchMeaning` | exec/packages/boost_program_options-src.1.66.0.0/lib/native/src/options_description.cpp:72-121 | Over characters: full match with either name, letter case ignored where asked; approximate match with what goes on after a pattern or, under guessing, begins the long name |
| `Options.FindFailsIff` | exec/packages/boost_program_options-src.1.66.0.0/lib/native/src/options_description.cpp:330-379 | A lookup fails exactly with two full matches, or two approximate ones and no full one, and lists canonical names of options that match |
| `Options.KeyMeaning` | exec/packages/boost_program_options-src.1.66.0.0/lib/native/src/options_description.cpp:123-138 | An option is called by its long name, by the name as written if that is a pattern, and by its short name if it has no other |
| `Options.FindIgnoresOrder` | exec/packages/boost_program_options-src.1.66.0.0/lib/native/src/options_description.cpp:330-379 | Declaring the options in another order changes no outcome but the order of listed alternatives |
| `Options.CanonicalLookup` | exec/packages/boost_program_options-src.1.66.0.0/lib/native/src/options_description.cpp:123-138 | Looking an option up again under its canonical name cannot find another one |
| `Positional.PositionalOptions.constructor` | exec/packages/boost_program_options-src.1.66.0.0/lib/native/src/positional_options.cpp:17-18 | An empty description |
| `Positional.PositionalOptions.Add` | exec/packages/boost_program_options-src.1.66.0.0/lib/native/src/positional_options.cpp:20-31 | A count of -1 names all the rest, any other count names that many positions |
| `Positional.PositionalOptions.AddAll` | exec/packages/boost_program_options-src.1.66.0.0/lib/native/src/positional_options.cpp:20-49 | After any allowed list of calls there are as many names as the calls cover, each position has the name of its call, and the trailing name is that of the call with -1 |
| `Positional.PositionNamed` | exec/packages/boost_program_options-src.1.66.0.0/lib/native/src/positional_options.cpp:20-49 | A position among those that a call covers, after those of the calls before it, has that call's name |
| `Positional.PositionMeaning` | exec/packages/boost_program_options-src.1.66.0.0/lib/native/src/positional_options.cpp:33-49 | The name of a position is that of the call which covers it, and beyond all of them that of the call with -1 |
| `CommandLine.LongTokenMeaning` | exec/packages/boost_program_options-src.1.66.0.0/lib/native/src/cmdline.cpp:507-541 | The long parser takes exactly the tokens of its form and takes each apart so that it can be put together again |
| `CommandLine.GroupMeaning` | exec/packages/boost_program_options-src.1.66.0.0/lib/native/src/cmdline.cpp:543-608 | The options of a short group spell the token, only the last has the token and a value |
| `CommandLine.TakeMeaning` | exec/packages/boost_program_options-src.1.66.0.0/lib/native/src/cmdline.cpp:462-487 | Tokens move over one by one, up to the number needed, in order |
| `CommandLine.FinishMeaning` | exec/packages/boost_program_options-src.1.66.0.0/lib/native/src/cmdline.cpp:395-505 | Completion keeps tokens and values in order, and leaves the option recognised with fitting number of values, or unknown and allowed |
| `CommandLine.RoundShrinks` | exec/packages/boost_program_options-src.1.66.0.0/lib/native/src/cmdline.cpp:247-284 | Every round consumes at least the token in front, so the loop ends |
| `CommandLineLaws.RoundMeaning` | exec/packages/boost_program_options-src.1.66.0.0/lib/native/src/cmdline.cpp:247-284 | One round records exactly the run of tokens it removes, or meets the terminator and records everything behind it |
| `CommandLineLaws.Pass1Meaning` | exec/packages/boost_program_options-src.1.66.0.0/lib/native/src/cmdline.cpp:246-284 | The first pass records all tokens before the terminator it reaches in order, then each token behind it on its own |
| `CommandLineLaws.Pass2Meaning` | exec/packages/boost_program_options-src.1.66.0.0/lib/native/src/cmdline.cpp:286-351 | The second pass moves tokens to options that may take more, loses none, never touches those behind the terminator, and leaves no option hungry before a token it could take |
| `CommandLineLaws.Pass3Meaning` | exec/packages/boost_program_options-src.1.66.0.0/lib/native/src/cmdline.cpp:354-375 | The k-th positional option gets position k and the k-th name |
| `CommandLineLaws.Pass3Fails` | exec/packages/boost_program_options-src.1.66.0.0/lib/native/src/cmdline.cpp:362-375 | Naming fails exactly when there are more positional options than names |
| `CommandLineLaws.RunMeaning` | exec/packages/boost_program_options-src.1.66.0.0/lib/native/src/cmdline.cpp:203-393 | On every run that does not throw, the result accounts for the arguments, each option fits its description, and before the terminator no option that could take more values is followed by a token left positional |
| `CommandLineLaws.RunConserves` | exec/packages/boost_program_options-src.1.66.0.0/lib/native/src/cmdline.cpp:203-393 | The tokens recorded in all options, concatenated, are the arguments without at most one terminator, the one reached |
| `Readings.RoundReads` | exec/packages/boost_program_options-src.1.66.0.0/lib/native/src/cmdline.cpp:247-284 | A round of the main loop on arguments that begin with an item of the grammar yields the options of that item and leaves the rest |
| `Readings.RoundFits` | exec/packages/boost_program_options-src.1.66.0.0/lib/native/src/cmdline.cpp:247-284 | A round that gets through has read such an item |
| `Readings.TakeNeeded` | exec/packages/boost_program_options-src.1.66.0.0/lib/native/src/cmdline.cpp:465-490 | A token is taken as a needed value exactly if it does not look like an option, or can be read as one and names none; one that names an option is refused as a missing parameter |
| `Readings.MissingValue` | exec/packages/boost_program_options-src.1.66.0.0/lib/native/src/cmdline.cpp:402-490 | An option that needs a value and is followed by the name of an option fails with a missing parameter |
| `Readings.AcceptedIff` | exec/packages/boost_program_options-src.1.66.0.0/lib/native/src/cmdline.cpp:203-351 | The two passes get through exactly on the arguments that have a reading: items that fit the options one after the other, each with all the tokens it can take |
| `Readings.ReadingYields` | exec/packages/boost_program_options-src.1.66.0.0/lib/native/src/cmdline.cpp:203-351 | And then they yield the options of that reading: keys, values, tokens and order |
| `Readings.RunIff` | exec/packages/boost_program_options-src.1.66.0.0/lib/native/src/cmdline.cpp:203-375 | A whole run succeeds exactly on arguments with a reading that has no more positional options than names; the positional ones are numbered in turn and named after the calls that described them |
| `Cmdline.Tokens.constructor` | exec/packages/boost_program_options-src.1.66.0.0/lib/native/src/cmdline.cpp:103-110 | The vector of unparsed tokens |
| `Cmdline.Parser.constructor` | exec/packages/boost_program_options-src.1.66.0.0/lib/native/src/cmdline.cpp:86-128 | The parser over shared tokens |
| `Cmdline.Parser.ParseLongOption` | exec/packages/boost_program_options-src.1.66.0.0/lib/native/src/cmdline.cpp:507-541 | Yields what the token says and erases it from the shared vector, or leaves the vector alone |
| `Cmdline.Parser.ParseShortOption` | exec/packages/boost_program_options-src.1.66.0.0/lib/native/src/cmdline.cpp:543-608 | The same for a group of short options |
| `Cmdline.Parser.ParseTerminator` | exec/packages/boost_program_options-src.1.66.0.0/lib/native/src/cmdline.cpp:662-680 | Everything behind the terminator is taken and the vector emptied |
| `Cmdline.Parser.FinishOption` | exec/packages/boost_program_options-src.1.66.0.0/lib/native/src/cmdline.cpp:395-505 | Completes an option from the shared tokens, which lose exactly what it takes |
| `Cmdline.Parser.TakeTokens` | exec/packages/boost_program_options-src.1.66.0.0/lib/native/src/cmdline.cpp:462-487 | The inner loop, refusing tokens that name known options |
| `Cmdline.Parser.FinishNext` | exec/packages/boost_program_options-src.1.66.0.0/lib/native/src/cmdline.cpp:258-268 | All but the last option of a group are completed without tokens |
| `Cmdline.Parser.TryParsers` | exec/packages/boost_program_options-src.1.66.0.0/lib/native/src/cmdline.cpp:249-283 | The style parsers in order until one consumes, else a lone token |
| `Cmdline.Parser.FirstPass` | exec/packages/boost_program_options-src.1.66.0.0/lib/native/src/cmdline.cpp:247-284 | The main loop is the first pass of the specification and ends |
| `Cmdline.Parser.GrabTokens` | exec/packages/boost_program_options-src.1.66.0.0/lib/native/src/cmdline.cpp:315-350 | The loop over following lone tokens, with both asserts proved |
| `Cmdline.Parser.SecondPass` | exec/packages/boost_program_options-src.1.66.0.0/lib/native/src/cmdline.cpp:286-351 | The second pass of the specification |
| `Cmdline.Parser.AssignPositions` | exec/packages/boost_program_options-src.1.66.0.0/lib/native/src/cmdline.cpp:354-375 | Two loops, numbering then naming, are the third pass of the specification |
| `Cmdline.Parser.Run` | exec/packages/boost_program_options-src.1.66.0.0/lib/native/src/cmdline.cpp:203-393 | run is the composition of the three passes |
| `Cmdline.LoneHaveValues` | exec/packages/boost_program_options-src.1.66.0.0/lib/native/src/cmdline.cpp:332-346 | Every option without key that the second pass meets has one value and one token, so the asserts at 340 and 344 hold |
| `Cmdline.PassesUnposition` | exec/packages/boost_program_options-src.1.66.0.0/lib/native/src/cmdline.cpp:354-375 | Before numbering no named option carries a position |
| `Cmdline.OptionCount` | exec/packages/boost_program_options-src.1.66.0.0/lib/native/src/cmdline.cpp:246-284 | The first pass yields no more options than the arguments have characters and tokens |
| `Store.XParse` | exec/packages/boost_program_options-src.1.66.0.0/lib/native/src/value_semantic.cpp:111-120 | Conversion refuses a second occurrence and several values, except for vectors, which append; an implicit value stands in for no tokens |
| `Store.VariablesMap.constructor` | exec/packages/boost_program_options-src.1.66.0.0/lib/native/src/variables_map.cpp:177-178 | An empty map |
| `Store.VariablesMap.Store` | exec/packages/boost_program_options-src.1.66.0.0/lib/native/src/variables_map.cpp:22-140 | One call does what the specification says, its partial effect when it throws included |
| `Store.VariablesMap.ApplyDefaults` | exec/packages/boost_program_options-src.1.66.0.0/lib/native/src/variables_map.cpp:104-139 | The second loop, defaults and required names |
| `Store.VariablesMap.FirstMissing` | exec/packages/boost_program_options-src.1.66.0.0/lib/native/src/variables_map.cpp:212-228 | The check of notify reports the first required name, in order, without a value, and none exactly when all have one |
| `Store.ItemsAt` | exec/packages/boost_program_options-src.1.66.0.0/lib/native/src/variables_map.cpp:47-92 | What the first loop does to one name depends only on the lists given to that name |
| `Store.FinalAt` | exec/packages/boost_program_options-src.1.66.0.0/lib/native/src/variables_map.cpp:84-90 | A name becomes final exactly when it was given and does not compose |
| `Store.DefaultsAt` | exec/packages/boost_program_options-src.1.66.0.0/lib/native/src/variables_map.cpp:104-126 | A default is entered for a name exactly when it has no entry, the first declared one |
| `Store.StoredEntry` | exec/packages/boost_program_options-src.1.66.0.0/lib/native/src/variables_map.cpp:22-140 | One more call keeps the entry of every name what its counting lists make of it |
| `Store.StoreAllEntry` | exec/packages/boost_program_options-src.1.66.0.0/lib/native/src/variables_map.cpp:22-140 | Over any calls that do not throw, the entry of a name is what conversion makes of the lists that count: those of the first call that gave it, or of all calls if it composes; a default stands exactly while none has given it |
| `Store.VectorCollects` | exec/packages/boost.1.66.0.0/lib/native/include/boost/program_options/detail/value_semantic.hpp:128-150 | A vector without implicit value collects the tokens of all lists in order |
| `Store.VectorStartsOver` | exec/packages/boost.1.66.0.0/lib/native/include/boost/program_options/detail/value_semantic.hpp:175-185 | An empty list puts the implicit value in the place of everything before it; the tokens behind the last empty list are added |
| `Store.ScalarTakesOne` | exec/packages/boost_program_options-src.1.66.0.0/lib/native/src/value_semantic.cpp:185-209 | Any other option accepts a second list exactly if that is empty and an implicit value exists; its value is the single token or the implicit value |
| `Store.StoreAllCollects` | exec/packages/boost_program_options-src.1.66.0.0/lib/native/src/variables_map.cpp:22-140 | Over any calls that do not throw, a vector holds every token of every list that counts, in order, and what is no vector was given once, up to repetitions without value |
| `Store.FirstCounts` | exec/packages/boost_program_options-src.1.66.0.0/lib/native/src/variables_map.cpp:59-61 | For a non-composing option the lists that count are those of the first call that gives it |
| `Store.StoreAllRequired` | exec/packages/boost_program_options-src.1.66.0.0/lib/native/src/variables_map.cpp:128-138 | The required names known after the calls are those declared |
| `Store.ReportedLongest` | exec/packages/boost_program_options-src.1.66.0.0/lib/native/src/variables_map.cpp:128-139 | After any calls a required option is reported as one of the calls shows it, and none shows it longer, so -- wins over - and / and these over the bare name |
| `Store.StoreThrows` | exec/packages/boost_program_options-src.1.66.0.0/lib/native/src/variables_map.cpp:47-102 | A call that throws has stored what came before the refused option, of which at most an entry without its default is left, and changed nothing else |
| `Store.RequiredMet` | exec/packages/boost_program_options-src.1.66.0.0/lib/native/src/variables_map.cpp:212-228 | notify misses a name exactly when it was declared required, never given, and has no default |
| `ConfigFile.NeighboursSuffice` | exec/packages/boost_program_options-src.1.66.0.0/lib/native/src/config_file.cpp:42-57 | Comparing with the two neighbours of the insertion point decides whether any registered prefix clashes |
| `ConfigFile.InsertKeeps` | exec/packages/boost_program_options-src.1.66.0.0/lib/native/src/config_file.cpp:63-63 | Inserting a prefix that clashes with none keeps the set sorted and prefix-free |
| `ConfigFile.ConfigFileIterator.constructor` | exec/packages/boost_program_options-src.1.66.0.0/lib/native/src/config_file.cpp:23-36 | Nothing registered yet |
| `ConfigFile.ConfigFileIterator.AddOption` | exec/packages/boost_program_options-src.1.66.0.0/lib/native/src/config_file.cpp:38-65 | A pattern is refused exactly when some registered prefix clashes with it; otherwise it is added and the set stays prefix-free |
| `ConfigFile.ConfigFileIterator.AllowOptions` | exec/packages/boost_program_options-src.1.66.0.0/lib/native/src/config_file.cpp:23-36 | Registering all names succeeds exactly when no two patterns among them clash, and then registers exactly those |
| `ConfigFile.ConfigFileIterator.AllowedOption` | exec/packages/boost_program_options-src.1.66.0.0/lib/native/src/config_file.cpp:131-144 | The single probe answers: registered, or begins with a registered prefix and goes on |
| `ConfigFile.ConfigFileIterator.Get` | exec/packages/boost_program_options-src.1.66.0.0/lib/native/src/config_file.cpp:83-128 | Reads on to the next assignment, tracking sections, and leaves the rest for later calls |
| `ConfigFile.ConfigFileIterator.ReadAll` | exec/packages/boost_program_options-src.1.66.0.0/lib/native/src/config_file.cpp:83-128 | Iterating to the end delivers all entries or the first error |
| `ConfigFile.LineRoundTrip` | exec/packages/boost_program_options-src.1.66.0.0/lib/native/src/config_file.cpp:91-124 | Every printed line, with any blanks and comment, is read as what it says: nothing, a section whose name ends with exactly the dot it has or gets, an assignment, or an unrecognized line |
| `ConfigFile.DocumentRoundTrip` | exec/packages/boost_program_options-src.1.66.0.0/lib/native/src/config_file.cpp:83-128 | A printed document reads back as exactly its settings in order, each under its section, one dot and its name, up to the first unrecognized line or, if unknown options are refused, the first key that is neither registered nor goes on after a registered prefix |
| `FormatParagraph.BreakAt` | exec/packages/boost_program_options-src.1.66.0.0/lib/native/src/options_description.cpp:474-501 | A line is cut full, unless that chops a word and a space in the second half of the line avoids it |
| `FormatParagraph.GoodBreakUnique` | exec/packages/boost_program_options-src.1.66.0.0/lib/native/src/options_description.cpp:474-501 | The break rule leaves no choice |
| `FormatParagraph.Format` | exec/packages/boost_program_options-src.1.66.0.0/lib/native/src/options_description.cpp:399-525 | The whole routine, tab handling and error included |
| `FormatParagraph.LineEnd` | exec/packages/boost_program_options-src.1.66.0.0/lib/native/src/options_description.cpp:471-502 | The search for the end of one line keeps the break rule |
| `FormatParagraph.Wrap` | exec/packages/boost_program_options-src.1.66.0.0/lib/native/src/options_description.cpp:451-523 | The loop over the lines of a long paragraph ends and writes the lines of the specification |
| `FormatParagraph.WritePad` | exec/packages/boost_program_options-src.1.66.0.0/lib/native/src/options_description.cpp:513-519 | The padding loop writes the indentation |
| `FormatParagraph.LaterCarryOn` | exec/packages/boost_program_options-src.1.66.0.0/lib/native/src/options_description.cpp:453-523 | The second and later lines carry on with the rest: nothing is lost but one space before a line's first word |
| `FormatParagraph.PhysicalOf` | exec/packages/boost_program_options-src.1.66.0.0/lib/native/src/options_description.cpp:509-520 | The physical lines of the output are the lines laid out, each behind its indentation |
| `FormatParagraph.FormatMeaning` | exec/packages/boost_program_options-src.1.66.0.0/lib/native/src/options_description.cpp:390-525 | For every paragraph without newlines: error exactly with two tabs; else no physical line is longer than line_length counting indent, the text of the lines is the input without its tab, and later lines are indented by the column of a tab on the first line |
| `UnitPool.Unit.constructor` | src/service_unit.h:239-268 | A new unit enters the pool only under a name without entry |
| `UnitPool.Unit.AddStartDependency` | src/service_unit.h:387-390 | Appends one start dependency |
| `UnitPool.Unit.AddWaitDependency` | src/service_unit.h:398-400 | Appends one wait dependency |
| `UnitPool.SystemDUnitPool.FindUnit` | src/service_unit.cpp:75-81 | A look-up may add a null entry; loaded units and their dependencies stay |
| `UnitPool.SystemDUnitPool.AddWaits` | src/service_unit.cpp:1567-1572 | The loaded units among the After names are appended in order |
| `UnitPool.SystemDUnitPool.AddStarts` | src/service_unit.cpp:1574-1592 | The loaded units among the Requires or Wants names are appended in order |
| `UnitPool.SystemDUnitPool.GiveWaits` | src/service_unit.cpp:1605-1610 | The unit is appended to each loaded unit it is Before, once per mention |
| `UnitPool.SystemDUnitPool.GiveStarts` | src/service_unit.cpp:1612-1617 | The unit is appended to each loaded unit that its RequiredBy names, once per mention |
| `UnitPool.SystemDUnitPool.SetupOwnDependencies` | src/service_unit.cpp:1560-1594 | Only this unit changes, by its own relations |
| `UnitPool.SystemDUnitPool.SetupOtherDependencies` | src/service_unit.cpp:1597-1619 | The other units change by this unit's Before and RequiredBy |
| `UnitPool.SystemDUnitPool.NextKey` | src/service_unit.cpp:1755-1757 | The increment of the map iterator |
| `UnitPool.SystemDUnitPool.SetupOwnPass` | src/service_unit.cpp:1755 | Every loaded unit is set up once although look-ups grow the map under the iterator; the pass ends |
| `UnitPool.SystemDUnitPool.SetupOtherPass` | src/service_unit.cpp:1756 | The same for the relations from the other side |
| `UnitPool.SystemDUnitPool.RegisterService` | src/service_control.cpp:446-560 | The service manager is handed the unit's name and the names of its start dependencies in order; the service is registered afterwards unless its name is refused |
| `UnitPool.SystemDUnitPool.RegisterPass` | src/service_unit.cpp:1546-1558 | The loaded units whose services are not registered are registered, in key order, with their start dependencies |
| `UnitPool.PassRegisters` | src/service_unit.cpp:1546-1558 | What that pass hands over is, in key order and once each, exactly the loaded units not registered before, each with the names of its start dependencies in order |
| `UnitPool.PassAgain` | src/service_unit.cpp:1546-1558 | Loading once more hands over only what the service manager has refused |
| `UnitPool.SystemDUnitPool.LoadPool` | src/service_unit.cpp:1744-1758 | After both passes each unit has exactly the dependencies stated by itself and then by others, in pool order; no loaded unit goes away; those not registered yet are registered |
| `UnitPool.PassedNext` | src/service_unit.cpp:1755-1757 | A key visited next is the next loaded unit or has none, whatever null entries were inserted meanwhile |
| `UnitPool.EdgesCount` | src/service_unit.cpp:1560-1619 | As multisets: a unit is a wait dependency of another once per mention in After plus once per mention in Before from the other side, and likewise for start dependencies |
| `UnitPool.OwnNames` | src/service_unit.cpp:1560-1594 | The unit's own relations add the loaded units in the order of After, and of Requires and then Wants, behind what was there |
| `UnitPool.StatingInOrder` | src/service_unit.cpp:1597-1619 | The relations from the other side add units in the order of the pool |
| `UnitPool.SystemDUnitPool.CopyUnitFileToActive` | src/service_unit.cpp:97-134 | Succeeds exactly when a file is in the active directory or the library, and then the file is in the active directory; nothing else changes there |
| `UnitPool.SystemDUnitPool.ReadServiceUnit` | src/service_unit.cpp:137-162 | After a look-up the unit read stays out of the pool |
| `UnitPool.SystemDUnitPool.EnableRequired` | src/service_unit.cpp:1057-1080 | One required unit: a loaded one is taken as it is, any other is read and enabled or ends the attempt |
| `UnitPool.SystemDUnitPool.EnableWanted` | src/service_unit.cpp:1082-1100 | One wanted unit: enabled, loaded or not, failure ignored, recorded as start dependency |
| `UnitPool.SystemDUnitPool.EnableAllRequired` | src/service_unit.cpp:1057-1080 | The loop over the required units, up to the first that cannot be enabled |
| `UnitPool.SystemDUnitPool.EnableAllWanted` | src/service_unit.cpp:1082-1100 | The loop over the wanted units |
| `UnitPool.SystemDUnitPool.Enable` | src/service_unit.cpp:1016-1115 | Terminates whenever the units met on the way can be ranked; a unit whose service is registered by then is not registered again; registers exactly the services of the specification in its order; each registration names the required and then the wanted units; no loaded unit goes away; the active directory gains exactly the files of Visiting.CopiedIff |
| `UnitPool.SystemDUnitPool.EnableByName` | src/main.cpp:423-433 | The enable command for one name, which ends whenever every unit met from it exists and none is on a cycle, with what it registers and copies |
| `Dependencies.RankedIff` | src/service_unit.cpp:1057-1100 | The units met from a unit can be ranked exactly when they all exist and none of them is on a cycle of dependencies, so the condition under which enabling ends is one about the unit files alone |
| `UnitPool.ExtendsTwice` | src/service_unit.cpp:1016-1115 | What one enabling guarantees about the pool composes |
| `Enabling.SucceedsIff` | src/service_unit.cpp:1016-1115 | Enabling succeeds exactly when the unit has a file and every required unit not loaded can be enabled too; neither wanted units nor earlier registrations matter |
| `Enabling.RegisteredAfterRequired` | src/service_unit.cpp:1057-1114 | Every service is handed over only after every unit it requires, unless that one is loaded or was registered before |
| `Enabling.RegisteredIff` | src/service_unit.cpp:1057-1114 | A service is handed over exactly when it was not registered before, some chain of dependencies leads to its unit and that can be enabled |
| `Enabling.NeverTwice` | src/service_unit.cpp:1102-1113 | If the service manager accepts what it is handed, no service is handed over twice and none that was registered before, however often a unit is required |
| `Enabling.OnceIff` | src/service_unit.cpp:1016-1115 | In general no service is handed over twice exactly when no refused one is at the end of two chains of dependencies |
| `Enabling.EnabledIs` | src/service_unit.cpp:1016-1115 | What is handed over is the units that come up on the way, in order, without those that are registered when they come up; so success and order do not depend on the service manager |
| `Enabling.HandedCount` | src/service_unit.cpp:1102-1113 | A service registered before is never handed over, an accepted one once, a refused one each time its unit comes up |
| `Visiting.VisitedIff` | src/service_unit.cpp:1057-1100 | A unit comes up exactly when some chain of dependencies leads to it and it can be enabled |
| `Visiting.VisitedOnceIff` | src/service_unit.cpp:1057-1100 | It comes up at most once exactly when it is not at the end of two different chains |
| `Visiting.CopiedIff` | src/service_unit.cpp:1032-1100 | A unit file is copied to the active directory exactly if there is one and some chain of dependencies leads to its unit, units that then cannot be enabled included |
| `Enabling.HandedCopied` | src/service_unit.cpp:1032-1114 | Every service handed over, and every unit enabled, has its file in the active directory |
| `ServiceThread.ProcessSpecialCharacters` | exec/service_exec.cpp:42-89 | The loop that erases in place is the specification |
| `ServiceThread.PrefixesRoundTrip` | exec/service_exec.cpp:42-89 | Prefixes @ - + !! in any order and number are taken off and each sets its flag, the command is left whole |
| `ServiceThread.CommandWholeIff` | exec/service_exec.cpp:42-89 | Behind any run of special characters the command is left whole exactly when no single ! at the end of the run takes its first character along |
| `ServiceThread.FirstTaken` | exec/service_exec.cpp:74-80 | Where it does, the command is left without that character |
| `ServiceThread.PrefixesTakenIff` | exec/service_exec.cpp:42-89 | Command and flags are both what the characters say exactly when, besides, every character that a single ! takes along also stands on its own |
| `ServiceThread.SingleBangCounterexample` | exec/service_exec.cpp:76-79 | The shortest input on which it is not: a single ! costs the command its first character |
| `ServiceThread.CWrapperService.constructor` | exec/service_exec.cpp:92-128 | Commands and flags come from the unit's strings in order |
| `ServiceThread.CommandsOf` | exec/service_exec.cpp:99-107 | One command per string, with the flags of its prefixes, inside the shell text |
| `ServiceThread.CommandAt` | exec/service_exec.cpp:99-128 | Each command has the flags of the prefixes in front of its text, and the text between the shell's |
| `ServiceThread.CWrapperService.CheckFiles` | exec/service_exec.cpp:699-728 | Files that must be absent and files that must be present |
| `ServiceThread.CWrapperService.RunPre` | exec/service_exec.cpp:777-794 | The ExecStartPre loop stops at the first failure that is not ignored |
| `ServiceThread.CWrapperService.RunStart` | exec/service_exec.cpp:802-823 | The main command; an exit code that cannot be read counts as done |
| `ServiceThread.CWrapperService.RunPost` | exec/service_exec.cpp:826-845 | The ExecStartPost loop, which reads the flags of ExecStartPre |
| `ServiceThread.CWrapperService.RunOnce` | exec/service_exec.cpp:689-850 | One attempt up to its exception |
| `ServiceThread.CWrapperService.Handle` | exec/service_exec.cpp:854-894 | The switch over the restart action, its default label included |
| `ServiceThread.CWrapperService.Serve` | exec/service_exec.cpp:681-904 | The loop over attempts |
| `Attempts.NotLaunched` | exec/service_exec.cpp:689-737 | Without the conditions an attempt ends with 1 and reports stopped; a file that must be absent or present ends it with 1; dependents that are not ready with 1068 |
| `Attempts.PreFailure` | exec/service_exec.cpp:777-794 | The first ExecStartPre failure without - ends the attempt with its code, after exactly the commands up to it |
| `Attempts.StartFailure` | exec/service_exec.cpp:802-823 | A main command that cannot be created, or exits with a code other than 0, ends the attempt with that code, and no ExecStartPost command runs |
| `Attempts.PostFailure` | exec/service_exec.cpp:826-845 | Behind a main command that is done the first ExecStartPost failure that is not ignored ends the attempt with its code, or reads past the flags |
| `Attempts.Success` | exec/service_exec.cpp:802-849 | Without such failures all commands run in order and the attempt ends with 0; an exit code of the main command that cannot be read is no failure |
| `Attempts.EndsInIff` | exec/service_exec.cpp:689-849 | Every attempt ends with exactly the code that its answers determine |
| `Attempts.StartsIff` | exec/service_exec.cpp:689-823 | The main command runs in an attempt exactly when conditions, files and dependents allow it and every ExecStartPre command succeeded or carries - |
| `Attempts.StartComesAfter` | exec/service_exec.cpp:777-803 | All ExecStartPre commands have run in order before the main command |
| `Attempts.RunStartComesAfter` | exec/service_exec.cpp:681-904 | The same wherever the main command is started in a whole run of attempts |
| `Attempts.FinishesIff` | exec/service_exec.cpp:851-898 | The thread finishes exactly with the first attempt that its restart action lets it end with |
| `Attempts.RunRetries` | exec/service_exec.cpp:687-898 | The events of attempts that are followed by another one come first, in order |
| `Attempts.RunFinishes` | exec/service_exec.cpp:851-903 | A run that finishes is the attempts that were followed by another, the last one, and the reports paused and stopped |
| `Attempts.RunCrashes` | exec/service_exec.cpp:835-842 | A run that reads past the flags ends there, after the attempts before it |
| `Attempts.RunTries` | exec/service_exec.cpp:687-898 | A run whose attempts are all followed by another goes on as long as there are answers |
| `Attempts.RestartNo` | exec/service_exec.cpp:855-858 | Restart=no, and the undefined action, which falls to the default label, make exactly one attempt |
| `Attempts.RestartOnCode` | exec/service_exec.cpp:867-885 | Restart=on-success, and on-failure, finish exactly at the first attempt whose answers make it end with a code other than 0, all earlier ones ending with 0 |
| `Attempts.RestartAlways` | exec/service_exec.cpp:860-893 | Always, on-abnormal, on-abort and on-watchdog never finish by themselves |
| `Attempts.PostFlagsIff` | exec/service_exec.cpp:835-842 | The ExecStartPost loop honours its commands' own flags on all outcomes exactly when they agree, position by position, with those of ExecStartPre |
| `StringList.DependencyBuffer` | src/service_control.cpp:483-499 | The buffer written through the moving pointer fits its computed size and holds the list, its terminator and the slack |
| `StringList.Put` | src/service_control.cpp:491-495 | One name and its NUL are written at the pointer, the rest stays |
| `StringList.ReadDependencies` | exec/service_exec.cpp:301-311 | The scan reads names up to the list terminator and never leaves the buffer |
| `StringList.WcsLen` | exec/service_exec.cpp:306-306 | The length of one string |
| `StringList.DependencyRoundTrip` | src/service_control.cpp:483-499 | What is read back is what was registered exactly when every name is non-empty and free of NUL |
| `StringList.Environment.constructor` | exec/service_exec.cpp:761-764 | No variables and no block yet |
| `StringList.Environment.GetCurrentEnv` | exec/service_exec.cpp:425-450 | Every string of any process block sets the upper-cased name before its first =, unless it has none or its value holds a line terminator, where the regular expression does not match |
| `StringList.Environment.BuildBlock` | exec/service_exec.cpp:764-774 | The block holds every variable in key order |
| `StringList.EnvironmentRoundTrip` | exec/service_exec.cpp:764-774 | A block read back on top of any map overrides it with the whole map it was built from |
| `StringList.EnvironmentRoundTripIff` | exec/service_exec.cpp:425-450 | A fresh map gets back exactly what was stored exactly when every name is upper-case without =, no value holds a line terminator, and nothing holds a NUL |
| `StringList.ApplyAllPortable` | exec/service_exec.cpp:425-450 | Whatever the scan puts into the map can be stored again |
| `StringList.ApplyGives` | exec/service_exec.cpp:436-446 | One string sets exactly the variable that its name spells with small letters in place of capitals, if its value is on one line |
| `StringList.ScanSets` | exec/service_exec.cpp:425-450 | After the scan a variable has the last value that the block gives it |
| `StringList.ScanKeeps` | exec/service_exec.cpp:425-450 | A variable that the block gives no value stays as it was |
| `Journal.JournalStreamBuf.constructor` | exec/journalstream.h:82-89 | An empty buffer |
| `Journal.JournalStreamBuf.Overflow` | exec/journalstream.h:111-133 | A character joins the segment while it fits; a newline writes the segment's first 2048 bytes; the result never reads as end of file |
| `Journal.JournalStreamBuf.Sync` | exec/journalstream.h:135-148 | The open segment is written and the buffer starts over |
| `Journal.JournalStreamBuf.Run` | exec/journalstream.h:111-148 | Over any calls the file gets the segments, cut after newlines and at syncs, each clipped to 2048 bytes; cursor and NUL stay inside the buffer |
| `Journal.SegmentsConserve` | exec/journalstream.h:111-148 | The cuts themselves lose nothing |
| `Journal.LosslessIff` | exec/journalstream.h:111-148 | Nothing is lost exactly when no segment is longer than the buffer |
| `Journal.SegmentMeaning` | exec/journalstream.h:111-148 | A segment is the low bytes of what was put since the last newline or sync, that newline included |
| `Journal.ClippedAt` | exec/journalstream.h:111-148 | Of every segment exactly the first 2048 bytes are written |
| `Escape.Find` | exec/systemd-exec.cpp:158-158 | The search for one character |
| `Escape.EscapePass` | exec/systemd-exec.cpp:157-164 | One loop of in-place insertions ends and is a character-wise map |
| `Escape.PassesCompose` | exec/systemd-exec.cpp:157-173 | The second pass leaves the marks of the first alone |
| `Escape.EscapeForPowershell` | exec/systemd-exec.cpp:154-175 | Both passes together put a backslash and a backtick before every double quote and ampersand and change nothing else |
| `Escape.EscapeRoundTrip` | exec/systemd-exec.cpp:154-175 | Every command line can be read back from its escaped form |

## Left out

- Machine limits: sizes, counters and indices are unbounded, except where the parser converts them to
  `int`; `Cmdline.Parser.Run` asks that the arguments have fewer than INT_MAX characters and tokens.
- `Cmdline.Parser.Run`: models the default style only; the slash and disguised-long parsers, extra
  parsers, case-insensitive styles and the case flags set at lines 377-390 are not there.
- `Options`: `tolower` folds ASCII letters only; the texts of exceptions are not modelled.
- `Store.XParse`: models values of type string and vector of string; numbers, booleans, custom
  validators, wide-character conversion and notifiers are not there.
- `ConfigFile`: lines are given as a list, so reading from a stream and splitting it at newlines is
  not modelled; calling `Get` again after the end of the file is excluded.
- `FormatParagraph.Format`: models the build without assertions for a tab beyond the first line; the
  list of paragraphs and the option columns around it are not there.
- `UnitPool`: unit files are given by the relations they state. Parsing of unit files, the `.wants`
  and `.requires` directories, `Disable`, `Mask`, `ReloadPool` and `is_enabled`, which nothing reads,
  are not there.
- `UnitPool.SystemDUnitPool.RegisterService`: the service manager accepts or refuses a name once and
  for all, and is changed by nobody else meanwhile; `IsEnabled` is answered from the services it has,
  so a failure to open the manager or an existing service is not modelled.
- `UnitPool.SystemDUnitPool.Enable`: asks that the units met on the way have no cycle and that the
  units they want exist, because `SystemDUnit::Enable` does not end on a cycle and dereferences a null
  pointer for a missing wanted unit.
- `UnitPool.SystemDUnitPool.LoadPool`: starts after the unit files have been read, when no entry is
  null, because its listing dereferences every entry.
- `ServiceThread.CWrapperService.Serve`: models as many attempts as there are answers, since the
  thread may go on for ever; stopping, pausing, credentials, conditions and the waiting for
  dependents themselves are answers.
- `StringList.Environment.GetCurrentEnv`: `^` and `$` match at the ends of the string only; a library
  that also matches them at line ends would keep a value's first line. Environment files are not
  modelled, and `toupper` is ASCII.
- `Journal`: models the file output; console, event log and the move constructor are not there.
- `Winmain`: `isspace` is that of the C locale; the wide-character wrapper is not there.
- Service start, stop and status, the command table, credentials, events and logging: they call the
  system or print.
