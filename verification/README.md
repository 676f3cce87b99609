# Verified cores of FastClick

This project models self-contained cores of the FastClick library and proves what they are
for: printers that their readers invert, scanners that agree with each other, buffers and
vectors that refine plain sequences, and searches whose answers do not depend on order. The
code is modelled in its own form: loops that advance through a text, objects and arrays updated in
place. Each of these methods is proved to compute a specification function, or to change the
state as one says, and the theorems are about those functions.

| file | what it models |
|---|---|
| `Scan.dfy`, `Uncomment.dfy`, `Quote.dfy`, `ArgVec.dfy`, `SpaceVec.dfy` | the text layer of the configuration language: quotes, comments, three kinds of backslash escape, argument lists |
| `Comments.dfy`, `Escapes.dfy`, `Grammar.dfy` | the same language by its grammar, apart from the scanners: comments, escapes, and lines of words |
| `Decimal.dfy`, `NumberText.dfy`, `FixedPoint.dfy`, `DecimalText.dfy`, `Real2.dfy`, `Real10.dfy`, `Exponents.dfy` | fixed-point numbers in all their forms: the readers with their right-to-left accumulator, and the printers of Knuth and of sprintf |
| `IntegerText.dfy`, `StringAccum.dfy`, `Archive.dfy`, `NameTables.dfy` | integers as text, read and printed, and `ar` archives, with tables of long names |
| `BitText.dfy`, `Bitvector.dfy` | bit vectors in 32-bit words, and their text form |
| `Clp.dfy` | unambiguous prefixes of command-line options |
| `CircularBuffer.dfy` | a growing ring of bytes |
| `SequenceNumbers.dfy` | 32-bit sequence numbers and their comparison |
| `Widths.dfy`, `NumberArg.dfy` | bounds of machine integers, and what the readers of numbers share |
| `Crc32.dfy` | the table-driven CRC of clause 3.2.9 of IEEE Std 802.3 |
| `ByteStream.dfy` | positions in TCP streams that were modified on the way (sequence numbers as in section 3.4 of RFC 9293) |
| `FlowLayout.dfy` | the layout of flow control blocks |
| `ErrorAnno.dfy` | annotations in error messages |

Strings are sequences of characters that stand for bytes. Machine words are either sequences of
their bits or naturals with explicit wrap-around. Where a scanner returns an address past the end
of its text, or a range falls outside a string, the model does what the code does.

## What is proved

- **Quoting.** Whatever is quoted is read back, as a string (`UnquoteQuote`) and in argument
  lists of both kinds (`ArgsOfQuoted`, `WordsOfQuoted`), under both settings for newlines. The
  scanner that skips a quoted string and the one that decodes it stop at the same place on
  every text, although they take escapes in steps of different sizes (`QuoteScannersAgree`).
- **The language.** Apart from the scanners, a configuration string is a list of lines with commas
  between them, a line is words with spaces and comments around them, and a word is characters,
  quoted strings and escapes. For every such text the operations give what the grammar says
  (`LineUncommented`, `LineUnquoted`, `LinesSplit`, `LineSplit`), with comments and escapes
  described by what is written and not by how it is scanned (`LineCommentEnds`,
  `BlockCommentEnds`, `AngleDecodes`, `HexDecodes`, `OctalDecodes`, `LetterDecodes`).
- **Canonical text.** Removing comments twice changes more than doing it once exactly when a
  comment inside an escape runs off the end and another comment stands behind an item in front
  of it (`UncommentIdempotent`). Splitting into words, joining and splitting again is stable
  exactly when no escape runs off the end (`WordsCanonical`), and splitting at commas exactly
  when the last argument is neither empty nor cut short (`ArgsCanonical`). The conditions speak
  of the text alone, and each comes with a text for which they fail.
- **Fixed point.** The accumulator that reads a fraction from its last digit truncates at every
  step and still loses nothing (`AccumExact`), so a number is read to the nearest 2^-32, with
  its carry, whenever its count of integer digits is not negative (`ToFixedExact`); for the other
  numbers the exact condition is given (`ReadsExactlyIff`). `cp_unparse_real2` round-trips
  for all 32-bit numbers exactly up to 19 fraction bits; for each of 20 to 28 a number that it
  misprints is named (`Real2RoundTripIff`). Up to 19 it also prints as few digits as it can
  (`Real2Shortest`). `cp_unparse_real10` round-trips for up to nine digits
  (`Real10RoundTrip`). Any number that the readers accept, with a point, underscores and
  an exponent, is read as its digits times ten to that exponent (`ReadExponent`,
  `FixedPointRead`, `DecimalRead`).
- **Archives.** Parsing an unparsed archive gives its live elements, as the format can store
  them, and exactly which ones come back unchanged (`ArchiveRoundTrip`, `RoundTripIff`).
  Archives of any number of name tables and members that refer to them are read as well
  (`ReferencesRead`), and damaged ones give what stands in front of the damage (`CutOff`,
  `MagicMissing`, `LongNameRefused`).
- **Options.** An argument is accepted for an option exactly when it is the whole name or a
  prefix that no other option has (`MatchesIff`), although the code only keeps a running
  maximum per option (`LmmIsMaximum`, and in terms of the options alone `MatchesPlainly`). So no
  argument matches options of two ids in the first pass (`MatchIsUnique`), and an answer is
  independent of the order of the options exactly when the pass that decides matches at most one
  id (`OrderIndependentIff`, and in terms of the names `OrderIndependentByName`). Comparing without going back finds every way to leave out the
  last dash of a run (`ArgcmpStands`). Options without a long name, pairs of a name and its
  negation, and aliases of one id are all allowed.
- **Integers.** Printing without division (`AppendNumeric`) and reading with thresholds are
  inverse, in every base, with signs and prefixes (`ReadPrinted`, `PrintedIsRead`), and with
  underscores between the digits (`ReadBarred`).
- **Rings, bits, checksums, streams, layouts and annotations** refine a queue of bytes with the
  sequence number of its first one (`Run`), a sequence of booleans, polynomial division
  (`CrcIsRemainder`, with `RemainderUnique`) by the generator of the standard
  (`PolynomialIsStandard`), an order-preserving map (`AckMonotoneIff`,
  `SeqMonotoneIff`, with the exact conditions, and `AnswersKeepOrder` for words), disjoint
  least places (`BuildFcb`, with the exact condition for the ordered mode) and a list of name
  and value pairs (`ParseRun`, with the exact annotations that are read back in
  `AnnoRoundTripIff`).

Where code and comments differ, the model follows the code. The comment in
`fastclick-dpu/lib/confparse.cc:4044-4048` hopes that Knuth's method is correct in its context,
with the round trip as an invariant: it is for up to 19 bits and is not for the 20 to 28 that
the code also accepts. The comment on
`find_prefix_opt` promises an unambiguous match; leaving out dashes can match two options, and
the first one in the list wins (`DashesDependOnOrder`). The comment on `argcmp` at
`fastclick-dpu/lib/clp.c:913` allows an argument to have fewer dashes than the name; of a run
of dashes in front of another character at most one can be left out (`ArgcmpStands`), so that
the promise holds exactly for names without two such dashes (`AbbreviationsMatchIff`). A request
for bytes that a ring holds can start behind the end of its array, which the length of the
first copy does not allow for (`RequestOutside`). An assignment can leave a bit vector with a
single word, which a later resize takes for two (`OneWordLeft`), and with something in the
first word of an empty vector, which `offset_or` adds although the loop that documents it adds
nothing (`StaleWordLeft`).

## Model

| member | source | states |
|---|---|---|
| `Scan.SkipComment` | fastclick-dpu/lib/confparse.cc:269-285 | stops where a line or block comment ends, possibly past the end of the text |
| `Scan.LineCommentEnds` | fastclick-dpu/lib/confparse.cc:269-285 | a line comment has no newline in its body and takes the first one along, a carriage return with a line feed as one |
| `Scan.LineCommentOpen` | fastclick-dpu/lib/confparse.cc:269-285 | without a newline it reaches to the end, and one past it when nothing stands behind the slashes |
| `Scan.BlockCommentEnds` | fastclick-dpu/lib/confparse.cc:269-285 | a block comment ends behind the first star and slash at or after its third character |
| `Scan.BlockCommentOpen` | fastclick-dpu/lib/confparse.cc:269-285 | without them it reaches to the end, or past it when its body has less than two characters |
| `Scan.SkipBackslash` | fastclick-dpu/lib/confparse.cc:287-307 | stops behind an escape; inside `\<` comments are skipped whole |
| `Scan.SkipDoubleQuote` | fastclick-dpu/lib/confparse.cc:319-333 | stops behind the closing quote or at the end |
| `Scan.SkipSingleQuote` | fastclick-dpu/lib/confparse.cc:335-345 | stops behind the closing quote or at the end |
| `Scan.SkipCommentSpace` | fastclick-dpu/lib/confparse.cc:360-372 | skips all spaces and comments in front |
| `Scan.SkipItem` | fastclick-dpu/lib/confparse.cc:403-409 | skips a quoted string, an escape or one character |
| `Scan.ItemLocal` | fastclick-dpu/lib/confparse.cc:319-345 | a scan that ends inside a text does not depend on what follows, so it can be repeated on the output |
| `Uncomment.PartialUncomment` | fastclick-dpu/lib/confparse.cc:374-423 | copies what is not comment, with one space for a gap that held a comment, and says where it stopped |
| `Uncomment.CpUncomment` | fastclick-dpu/lib/confparse.cc:441-445 | the whole string without comments |
| `Uncomment.RescanText` | fastclick-dpu/lib/confparse.cc:374-423 | scanning the output again, in front of a comma or not, gives it back up to the space that an overrun left, and stops at its end |
| `Uncomment.LeftIff` | fastclick-dpu/lib/confparse.cc:374-423 | of a text that an escape overruns, in front of a comma or not, something is left if and only if a comment stands behind an item in front of the overrun |
| `Uncomment.NothingCopiedIff` | fastclick-dpu/lib/confparse.cc:374-423 | the copy is empty if and only if the text holds only spaces and comments, or all its items are lost to an overrun |
| `Uncomment.UncommentIdempotent` | fastclick-dpu/lib/confparse.cc:424-445 | removing comments is idempotent on a string if and only if no escape overruns it with a comment behind an item in front |
| `Uncomment.UncommentNotIdempotent` | fastclick-dpu/lib/confparse.cc:374-445 | a nine-character string on which it is not |
| `Comments.UncommentWithComment` | fastclick-dpu/lib/confparse.cc:374-445 | behind any text outside of quotes and escapes, a comment is as good as one space |
| `Comments.ArgsWithComment` | fastclick-dpu/lib/confparse.cc:696-710 | the same for splitting into arguments, with a comma or the end behind the comment |
| `Comments.WordsWithComment` | fastclick-dpu/lib/confparse.cc:767-782 | the same for splitting into words |
| `Quote.ProcessBackslashCode` | fastclick-dpu/lib/confparse.cc:476-558 | decodes one escape: what it stands for and how long it is |
| `Escapes.LetterDecodes` | fastclick-dpu/lib/confparse.cc:476-558 | the letters a, b, t, n, v, f and r stand for the control characters 7 to 13 |
| `Escapes.CharacterDecodes` | fastclick-dpu/lib/confparse.cc:476-558 | a newline of any kind stands for nothing, and any other character for itself |
| `Escapes.OctalDecodes` | fastclick-dpu/lib/confparse.cc:476-558 | one to three octal digits stand for the low eight bits of their value, and no more than three are taken |
| `Escapes.HexDecodes` | fastclick-dpu/lib/confparse.cc:476-558 | all hex digits behind x stand for the low eight bits of their value |
| `Escapes.AngleDecodes` | fastclick-dpu/lib/confparse.cc:476-558 | two hex digits for every byte, the upper one first, in either case and with other characters and comments between them, stand for the bytes |
| `Quote.CpUnquote` | fastclick-dpu/lib/confparse.cc:570-615 | decodes a string with its quotes and escapes; stretches of plain characters are copied whole |
| `Escapes.QuotedEscape` | fastclick-dpu/lib/confparse.cc:570-615 | between double quotes an escape is read as what it stands for |
| `Escapes.AngleOutside` | fastclick-dpu/lib/confparse.cc:570-615 | hex digits in angle brackets are read as their bytes outside of quotes and inside double quotes |
| `Quote.CpQuote` | fastclick-dpu/lib/confparse.cc:628-682 | writes a string in double quotes, with newlines or without |
| `Quote.QuotedGuarded` | fastclick-dpu/lib/confparse.cc:628-682 | what is written can be printed, has newlines only when they are allowed, and dollar signs and double quotes only behind a backslash |
| `Quote.QuotedPlain` | fastclick-dpu/lib/confparse.cc:628-682 | text that needs no escape is only put between quotes |
| `Quote.EscapeAgrees` | fastclick-dpu/lib/confparse.cc:287-307 | from an escape inside double quotes, both ways to skip it reach the same closing quote |
| `Quote.DoubleQuoteAgrees` | fastclick-dpu/lib/confparse.cc:309-333 | skipping to the end of a double-quoted string stops where decoding leaves it, on every text |
| `Quote.QuoteScannersAgree` | fastclick-dpu/lib/confparse.cc:309-345 | the same from any opening quote, double or single |
| `Quote.UnquoteQuote` | fastclick-dpu/lib/confparse.cc:617-682 | every string of bytes is decoded from its quoted form, which is never empty |
| `Quote.QuotedCopied` | fastclick-dpu/lib/confparse.cc:374-423 | a quoted string is copied unchanged, and the scan stops at the comma behind it |
| `ArgVec.CpArgVec` | fastclick-dpu/lib/confparse.cc:696-710 | splits at the commas that stand outside quotes, escapes and comments |
| `ArgVec.CpUnargVec` | fastclick-dpu/lib/confparse.cc:814-828 | joins with commas |
| `ArgVec.ArgsOfQuoted` | fastclick-dpu/lib/confparse.cc:696-710 | splitting inverts joining of quoted strings, for any list, and each one is decoded to its original |
| `ArgVec.ArgsShape` | fastclick-dpu/lib/confparse.cc:696-710 | every argument but the last is read back as it is, and the last one unless it overran |
| `ArgVec.LastIsLostIff` | fastclick-dpu/lib/confparse.cc:696-710 | the last argument is lost in that sense, which speaks of the string alone, if and only if it is empty or cut short by an overrun |
| `ArgVec.ArgsCanonical` | fastclick-dpu/lib/confparse.cc:814-828 | splitting, joining and splitting again changes nothing if and only if the last argument is not lost: it has an item in front of its comma, and no escape overruns it with a comment in front |
| `ArgVec.ArgsNotCanonical` | fastclick-dpu/lib/confparse.cc:696-710 | a lone comma is a string on which it does: its empty argument is not read back |
| `SpaceVec.SkipSpaceVecItem` | fastclick-dpu/lib/confparse.cc:712-754 | stops at the end of a word |
| `SpaceVec.CpSpaceVec` | fastclick-dpu/lib/confparse.cc:767-782 | splits at spaces and comments |
| `SpaceVec.CpUnspaceVec` | fastclick-dpu/lib/confparse.cc:837-845 | joins with spaces |
| `SpaceVec.WordsOfQuoted` | fastclick-dpu/lib/confparse.cc:767-782 | splitting inverts joining of quoted strings, for any nonempty list, and each one is decoded to its original |
| `SpaceVec.WordsWhenItem` | fastclick-dpu/lib/confparse.cc:767-782 | there are no words if and only if there are only spaces and comments |
| `SpaceVec.LastWordOverruns` | fastclick-dpu/lib/confparse.cc:756-782 | the last word is empty if and only if an escape overruns the string |
| `SpaceVec.WordsCanonical` | fastclick-dpu/lib/confparse.cc:767-782 | when there is a word at all, splitting, joining and splitting again changes nothing if and only if no escape overruns the string |
| `SpaceVec.WordsNotCanonical` | fastclick-dpu/lib/confparse.cc:767-782 | a four-character string whose one word is empty and is not read back |
| `Grammar.LineUncommented` | fastclick-dpu/lib/confparse.cc:374-445 | for every line of words (characters, quoted strings, escapes) with blanks between them, what is left is the words as they are written, with their spaces, or one space where a comment is, and nothing at the ends |
| `Grammar.LineUnquoted` | fastclick-dpu/lib/confparse.cc:570-615 | unquoting gives the words with their quotes gone and the escapes inside double quotes, and those in angle brackets, read; nothing is read inside single quotes |
| `Grammar.LinesSplit` | fastclick-dpu/lib/confparse.cc:696-710 | lines with commas between them are split into what is left of each, without an empty last one |
| `Grammar.LineSplit` | fastclick-dpu/lib/confparse.cc:767-782 | a line is split into its words as they are written |
| `NumberText.PreparseFraction` | fastclick-dpu/lib/args.cc:637-680 | finds the end of a number and its count of integer digits, with the exponent and the delta |
| `NumberText.MantissaShape` | fastclick-dpu/lib/args.cc:645-663 | the count is that of the digits before the decimal point, and no exponent is inside the mantissa |
| `Exponents.ReadExponent` | fastclick-dpu/lib/args.cc:637-680 | for every number with digits in front of or behind a point, underscores between digits, e or E, a sign and digits, the whole text is taken, and the count is delta and the digits in front of the point, plus or minus the exponent |
| `Exponents.ReadMantissa` | fastclick-dpu/lib/args.cc:637-680 | without an exponent, reading stops behind the mantissa |
| `Exponents.NotANumber` | fastclick-dpu/lib/args.cc:637-680 | a text with no digit behind its sign, or behind a point there, is no number |
| `Exponents.DigitsOfNumber` | fastclick-dpu/lib/args.cc:637-680 | the digits seen are those in front of and behind the point, and none of the exponent |
| `NumberText.ParseIntegerPortion` | fastclick-dpu/lib/args.cc:682-708 | reads the integer digits to 64 bits, saturates with a range error exactly when they do not fit, and stops at the fraction |
| `FixedPoint.FractionAccum.AddDecimalDigit` | fastclick-dpu/lib/args.cc:765-820 | with one more digit in front, the accumulator is floor(2^33 times the fraction that all digits so far stand for) |
| `FixedPoint.FractionAccum.Extract` | fastclick-dpu/lib/args.cc:765-820 | value and carry are that fraction rounded to 32 bits, halves up, as one number |
| `FixedPoint.AccumExact` | fastclick-dpu/lib/args.cc:765-820 | after any digits the accumulator is floor(2^33 times the fraction), although every step truncates |
| `FixedPoint.ParseFraction` | fastclick-dpu/lib/args.cc:823-863 | reads a number to an integer part and a 32-bit fraction |
| `FixedPoint.ToFixedExact` | fastclick-dpu/lib/args.cc:823-863 | for a count of integer digits that is not negative, the two parts are floor(2^32 V + 1/2) as one number, with a range error exactly when that needs more than 96 bits |
| `FixedPoint.ToFixedNegative` | fastclick-dpu/lib/args.cc:844-858 | for a negative count, what is read is rounded from the digits behind the zeros that the code puts before them |
| `FixedPoint.ReadsExactlyIff` | fastclick-dpu/lib/args.cc:844-858 | a number is read correctly if and only if its count of integer digits is not negative, or it has one digit, or it rounds to zero |
| `FixedPoint.MisreadsLeadingZero` | fastclick-dpu/lib/args.cc:844-858 | the digits 12 with the count -1 are not |
| `FixedPoint.MisreadsText` | fastclick-dpu/lib/args.cc:823-863 | the text .12e-1 is read as these digits with this count, so it is misread |
| `FixedPoint.FixedPointArg.Underparse` | fastclick-dpu/lib/args.cc:871-905 | scales the parts to the fraction bits in steps, with the carry and the range status |
| `FixedPoint.ReadFixedExact` | fastclick-dpu/lib/args.cc:871-905 | for 1 to 31 fraction bits and a count that is not negative, the result is floor(2^b V + 1/2 + 2^(b-33)), or 0xFFFFFFFF with a range error exactly when that does not fit |
| `FixedPoint.ReadFixed32` | fastclick-dpu/lib/args.cc:871-905 | for 32 fraction bits the result is the nearest one, or saturated |
| `FixedPoint.FixedValueError` | fastclick-dpu/lib/args.cc:871-905 | that value is within half a unit and 2^-33 of the number |
| `FixedPoint.CappedAre` | fastclick-dpu/lib/args.cc:890-905 | a result that does not fit is 0xFFFFFFFF with a range error |
| `FixedPoint.RoundedIsNearest` | fastclick-dpu/lib/args.cc:823-863 | rounding to 32 bits of fraction is to the nearest, halves up |
| `Exponents.FixedPointRead` | fastclick-dpu/lib/args.cc:823-905 | a number with an exponent is read as its digits times ten to the exponent, rounded as `ReadFixedExact` and `ReadFixed32` say, for 1 to 32 fraction bits and a count of integer digits that is not negative |
| `Exponents.TrailingText` | fastclick-dpu/lib/args.cc:871-905 | with text behind it, a number is not read at all |
| `DecimalText.ReadDecimalString` | fastclick-dpu/lib/args.cc:637-680 | the readers take the whole of a printed number and see all its digits |
| `DecimalText.NumeralIsShow` | fastclick-dpu/lib/straccum.cc:264-314 | the numeral in base ten is made of the digits that the printers of fractions start with |
| `Real2.CpUnparseReal2` | fastclick-dpu/lib/confparse.cc:4041-4077 | prints digits until the inaccuracy allowed is reached |
| `Real2.PrinterReadsBack` | fastclick-dpu/lib/confparse.cc:4053-4074 | from any state of the printing loop, the digits to come stay within half a unit of the number, and no tie is left |
| `Real2.Real2Shortest` | fastclick-dpu/lib/confparse.cc:4041-4077 | for 1 to 19 fraction bits, no decimal with fewer digits than are printed is within half a unit of the number |
| `Real2.Real2RoundTrip` | fastclick-dpu/lib/confparse.cc:4041-4077 | for 1 to 19 fraction bits, every 32-bit number is read back from its printed form with no range error |
| `Real2.Real2RoundTripIff` | fastclick-dpu/lib/confparse.cc:4041-4077 | for 1 to 28 fraction bits, all 32-bit numbers are read back if and only if there are at most 19 |
| `Real2.Misprint20` | fastclick-dpu/lib/confparse.cc:4041-4077 | with 20 fraction bits, a number that is read back as the next one |
| `Real2.Misprint21` | fastclick-dpu/lib/confparse.cc:4041-4077 | with 21 fraction bits, a number that is read back as the next one |
| `Real2.Misprint22` | fastclick-dpu/lib/confparse.cc:4041-4077 | with 22 fraction bits, a number that is read back as the next one |
| `Real2.Misprint23` | fastclick-dpu/lib/confparse.cc:4041-4077 | with 23 fraction bits, a number that is read back as the next one |
| `Real2.Misprint24` | fastclick-dpu/lib/confparse.cc:4041-4077 | with 24 fraction bits, a number that is read back as the next one |
| `Real2.Misprint25` | fastclick-dpu/lib/confparse.cc:4041-4077 | with 25 fraction bits, a number that is read back as the next one |
| `Real2.Misprint26` | fastclick-dpu/lib/confparse.cc:4041-4077 | with 26 fraction bits, a number that is read back as the next one |
| `Real2.Misprint27` | fastclick-dpu/lib/confparse.cc:4041-4077 | with 27 fraction bits, a number that is read back as the next one |
| `Real2.Misprint28` | fastclick-dpu/lib/confparse.cc:4041-4077 | with 28 fraction bits, a number that is read back as the next one |
| `Real10.CpUnparseReal10` | fastclick-dpu/lib/confparse.cc:4108-4131 | prints the integer part, and the fraction without trailing zeros |
| `Real10.Real10Shape` | fastclick-dpu/lib/confparse.cc:4108-4131 | an integer is printed without a point, and a fraction up to its last digit that is not zero |
| `Real10.PopZeros` | fastclick-dpu/lib/confparse.cc:4127-4129 | removing zeros stops before the decimal point, since some digit of the fraction is not zero |
| `Real10.ParseDecimalFraction` | fastclick-dpu/lib/args.cc:710-763 | reads a number to an integer part and d fraction digits, rounded by the next one |
| `Real10.DecimalFixedPointArg.Underparse` | fastclick-dpu/lib/args.cc:958-988 | joins the parts, saturating with a range error |
| `Real10.ReadDecimalExact` | fastclick-dpu/lib/args.cc:710-763 | when the zeros before the digits do not fill the fraction, the result is floor(10^d V + 1/2), saturated exactly when that does not fit |
| `Real10.ReadDecimalTiny` | fastclick-dpu/lib/args.cc:738-760 | when they do, the number is below a tenth of a unit, and a first digit of 5 or more is rounded up all the same |
| `Real10.ReadDecimalIff` | fastclick-dpu/lib/args.cc:710-763 | so the result is right if and only if the zeros do not fill the fraction, or there are no digits, or the first one is below 5 |
| `Real10.DecimalValueIsNearest` | fastclick-dpu/lib/args.cc:710-763 | the value meant is the nearest multiple of 10^-d, halves up |
| `Exponents.DecimalRead` | fastclick-dpu/lib/args.cc:710-763 | a number with an exponent is read as its digits times ten to the exponent, rounded, unless its zeros fill the whole fraction |
| `Exponents.PlainRead` | fastclick-dpu/lib/args.cc:637-680 | without an exponent, both readers round the number that the text stands for |
| `Real10.TinyMisread` | fastclick-dpu/lib/args.cc:738-760 | the digit 5 with the count -1 and no fraction digits is read as 1 |
| `Real10.TinyText` | fastclick-dpu/lib/args.cc:710-763 | the text 5e-2 with no fraction digits is read as 1, and 0 is the nearest number |
| `Real10.Real10RoundTrip` | fastclick-dpu/lib/confparse.cc:4108-4131 | for up to nine digits, every 32-bit number is read back from its printed form with no range error |
| `IntegerText.IntArg.FindSpan` | fastclick-dpu/lib/args.cc:517-557 | the extent of an integer and its base, by sign, prefix, digits and single underscores |
| `IntegerText.IntArg.Accumulate` | fastclick-dpu/lib/args.cc:569-589 | the one-limb value with its threshold and carry is the number, or a range error exactly when it needs more than 32 bits |
| `IntegerText.IntArg.Parse` | fastclick-dpu/lib/args.cc:559-619 | the integer, or the closest one that can be represented with a range error, in two's complement arithmetic |
| `IntegerText.ReadPrinted` | fastclick-dpu/lib/args.cc:517-619 | a number printed in any base from 2 to 36, with letters of either case, a sign and the prefix of its base, is read back by the signed and the unsigned reader, or the closest integer with a range error |
| `IntegerText.ReadBarred` | fastclick-dpu/lib/args.cc:517-619 | single underscores behind the digits change nothing, and one at the end is not taken |
| `IntegerText.PrefixAlone` | fastclick-dpu/lib/args.cc:517-560 | a prefix with no digit behind it is read as its zero |
| `IntegerText.NotAnInteger` | fastclick-dpu/lib/args.cc:517-560 | a text with no digit behind its sign is no integer |
| `IntegerText.LetterDigits` | fastclick-dpu/lib/straccum.cc:264-314 | digits from ten on are capital letters when asked for, and small ones otherwise |
| `IntegerText.ReadNumeral` | fastclick-dpu/lib/args.cc:517-619 | without sign and prefix, as the signed reader meets it in archives and bit vectors |
| `StringAccum.DivideByTen` | fastclick-dpu/lib/straccum.cc:281-304 | sums of shifts never exceed a tenth, and the loop that repeats them ends at the quotient and remainder by ten |
| `StringAccum.AppendNumeric` | fastclick-dpu/lib/straccum.cc:264-314 | writes the numeral of a 64-bit number in base 8, 10 or 16, digit by digit from the last one |
| `StringAccum.AppendSigned` | fastclick-dpu/lib/straccum.cc:316-329 | the same for signed numbers, with a minus sign |
| `StringAccum.PrintedIsRead` | fastclick-dpu/lib/straccum.cc:264-329 | what is printed is read back exactly when it fits 32 bits, and the reader stops behind it |
| `Archive.ReadUintField` | fastclick-dpu/lib/archive.cc:48-59 | a field that starts with an integer and goes on with white space, or -1 |
| `Archive.ReadName` | fastclick-dpu/lib/archive.cc:94-119 | the name in a header: short, in the section of long names, or a BSD length |
| `Archive.ParseArchive` | fastclick-dpu/lib/archive.cc:61-152 | reads all sections, with every way to fail, and the elements read before |
| `Archive.UnparseElement` | fastclick-dpu/lib/archive.cc:162-206 | writes one element: header in columns, long name, data, padding |
| `Archive.UnparseArchive` | fastclick-dpu/lib/archive.cc:154-214 | writes the live elements, whose fields fit their columns, and its own count of the size comes out right |
| `Archive.HeaderNumbers` | fastclick-dpu/lib/archive.cc:121-128 | the numbers written in a header are read back from their columns |
| `Archive.SectionRead` | fastclick-dpu/lib/archive.cc:72-146 | an element written anywhere in an archive is read as what the format stores of it, and reading goes on behind its padding |
| `Archive.ArchiveRoundTrip` | fastclick-dpu/lib/archive.cc:61-214 | when the fields of live elements fit their columns, parsing an unparsed archive gives the live elements in order as they are stored; with none of them live it is not recognised |
| `Archive.StoredExactly` | fastclick-dpu/lib/archive.cc:168-190 | an element is stored unchanged if and only if its date is not negative, its name has no slash, and it is long or has no NUL |
| `Archive.RoundTripIff` | fastclick-dpu/lib/archive.cc:61-214 | the live elements come back unchanged if and only if there are any and each of them is of that kind |
| `Archive.SlashIsLost` | fastclick-dpu/lib/archive.cc:168-190 | an element with a slash in its name comes back with what is in front of the slash |
| `Archive.LongNames` | fastclick-dpu/lib/archive.cc:180-188 | a name is written in front of the data exactly when it has 15 characters or more, or white space |
| `NameTables.ReferencesRead` | fastclick-dpu/lib/archive.cc:61-152 | an archive of tables of names, members that refer to a name by its offset, and members with names of their own is read as the members, each with its own fields and the name that it refers to in the last table in front of it |
| `NameTables.NameFound` | fastclick-dpu/lib/archive.cc:103-107 | at the offset of a name in a table, a reader finds that name |
| `NameTables.NoSuchName` | fastclick-dpu/lib/archive.cc:95-102 | an offset behind the table names nothing |
| `NameTables.OrdinaryName` | fastclick-dpu/lib/archive.cc:114-119 | a name in the header ends at a slash or white space |
| `NameTables.FieldRead` | fastclick-dpu/lib/archive.cc:48-59 | a field is a number up to its end or white space, or -1 |
| `NameTables.CutOff` | fastclick-dpu/lib/archive.cc:61-152 | an archive cut off anywhere inside a section is truncated; the members in front are kept, and so is one that only its padding is cut from |
| `NameTables.MagicMissing` | fastclick-dpu/lib/archive.cc:74-78 | a header without its magic number ends the reading, and the members in front are kept |
| `NameTables.LongNameRefused` | fastclick-dpu/lib/archive.cc:130-137 | so does a BSD name that is longer than its section |
| `NameTables.SmallArchive` | fastclick-dpu/lib/archive.cc:154-215 | an archive of one small file, byte for byte |
| `BitText.RunsAreMaximal` | fastclick-dpu/lib/bitvector.cc:346-364 | the runs written are increasing, separated and maximal, and hold exactly the set bits |
| `BitText.ReadRunText` | fastclick-dpu/lib/bitvector.cc:317-340 | a run is read back from its text |
| `BitText.BitTextRoundTrip` | fastclick-dpu/lib/bitvector.cc:317-364 | a nonempty bit vector is read back from its text |
| `BitText.RangesRead` | fastclick-dpu/lib/bitvector.cc:317-344 | numbers and ranges between min and max, in any order and overlapping or not, up to an empty part, set exactly the bits that are as far behind the offset as they are above min; the whole text is refused if and only if some range is out of order or out of bounds |
| `BitText.ShiftedRoundTrip` | fastclick-dpu/lib/bitvector.cc:317-364 | the bits from a place on, printed as numbers from any min on, are read back from that place on |
| `Bitvectors.Bitvector.ClearLast` | fastclick-dpu/lib/bitvector.cc:35-44 | clears the bits behind the last one and changes no other |
| `Bitvectors.Bitvector.Resize` | fastclick-dpu/lib/bitvector.cc:69-87 | keeps the bits that fit and adds false ones; exactly when the array has one word and two are wanted, the code clears a word behind it, and nothing is promised |
| `Bitvectors.Bitvector.Assign` | fastclick-dpu/lib/bitvector.cc:112-124 | all bits are the one given; exactly when the array has one word and two are wanted, nothing is promised |
| `Bitvectors.Bitvector.CopyFrom` | fastclick-dpu/lib/bitvector.cc:91-107 | takes over the bits of another vector; a larger operand leaves an array of just its words, and an empty one leaves the words as they are |
| `Bitvectors.OneWordLeft` | fastclick-dpu/lib/bitvector.cc:69-107 | an empty vector that is assigned one of a single word and resized to 33 bits has no room for them |
| `Bitvectors.Bitvector.Flip` | fastclick-dpu/lib/bitvector.cc:126-135 | every bit is negated, and none behind the last is set |
| `Bitvectors.Bitvector.OrAssign` | fastclick-dpu/lib/bitvector.cc:151-165 | the longer of the two, with the bits of both, when the resize it needs has room |
| `Bitvectors.OffsetOrWords` | fastclick-dpu/lib/bitvector.cc:193-222 | shifting word by word adds to each word what two neighbouring words of the operand contribute |
| `Bitvectors.AddedBit` | fastclick-dpu/lib/bitvector.cc:207-218 | bit for bit, that contribution is the operand at the offset, aligned or not |
| `Bitvectors.OffsetOrLoopAt` | fastclick-dpu/lib/bitvector.cc:181-191 | the documented loop sets exactly the bits of the operand at the offset |
| `Bitvectors.Bitvector.OffsetOr` | fastclick-dpu/lib/bitvector.cc:181-222 | the word-level code equals the documented loop over bits, for every offset and operand but one without bits that has something in its first word, which is added all the same; the word at the offset is behind the array exactly when the operand is empty and there is no such word |
| `Bitvectors.StaleWordLeft` | fastclick-dpu/lib/bitvector.cc:91-222 | an operand of size 0, after the assignment of an empty vector, that sets a bit |
| `Bitvectors.Bitvector.OrWithDifference` | fastclick-dpu/lib/bitvector.cc:225-248 | the bits of both, and the newly set ones apart, when the resize of the difference has room |
| `Bitvectors.Bitvector.SetRange` | fastclick-dpu/lib/bitvector.cc:286-292 | sets a range to a value |
| `Bitvectors.Bitvector.Range` | fastclick-dpu/lib/bitvector.cc:294-303 | whether a bit of a range is set, as far as the range is inside the vector |
| `Bitvectors.BitsAreSets` | fastclick-dpu/lib/bitvector.cc:69-315 | union, difference, complement, resizing and ranges of bits are what they are of the sets of numbers |
| `Bitvectors.Bitvector.Parse` | fastclick-dpu/lib/bitvector.cc:317-344 | reads ranges and numbers up to the first empty part, and leaves the vector alone on any mistake |
| `Bitvectors.Bitvector.Unparse` | fastclick-dpu/lib/bitvector.cc:346-364 | writes the maximal runs from an offset on, shifted |
| `Clp.MinDifferentChars` | fastclick-dpu/lib/clp.c:364-377 | the bytes that tell a name from another, or all of it |
| `Clp.UpdateIsMax` | fastclick-dpu/lib/clp.c:437-448 | where strncmp says so, the new value is the maximum of the old one and what the other option needs |
| `Clp.CompareOptions` | fastclick-dpu/lib/clp.c:395-450 | takes one more option into account for the longest minimum matches and the short flags |
| `Clp.CalculateLmm` | fastclick-dpu/lib/clp.c:452-462 | every option gets its longest minimum matches over all options |
| `Clp.LmmIsMaximum` | fastclick-dpu/lib/clp.c:395-462 | with different names, they are at least 1 and what every eligible option needs, and no more than one of them needs |
| `Clp.NeededIsPositive` | fastclick-dpu/lib/clp.c:924-943 | when options that one argument could mean have different names, argcmp is never asked for an empty match |
| `Clp.ArgcmpCode` | fastclick-dpu/lib/clp.c:907-943 | compares a name and an argument, with dashes left out or not |
| `Clp.ArgcmpMatches` | fastclick-dpu/lib/clp.c:907-943 | without that, an argument matches the names that it is a prefix of up to its equals sign, if it is long enough |
| `Clp.ArgcmpStands` | fastclick-dpu/lib/clp.c:907-943 | with dashes left out, an argument matches a name if and only if it stands for a prefix of it, where of every run of dashes in front of another character at most one is left out; the result is decided by the length of that prefix |
| `Clp.ArgcmpAbbreviates` | fastclick-dpu/lib/clp.c:907-943 | with dashes left out, an argument matches only names that it abbreviates, and all of them that have no two dashes in front of another character |
| `Clp.AbbreviationsMatchIff` | fastclick-dpu/lib/clp.c:907-943 | a name is matched by all its abbreviations, as the comment promises, if and only if it has no two dashes in front of another character, before any equals sign |
| `Clp.OneOfTwoDashes` | fastclick-dpu/lib/clp.c:930-935 | a-b matches a--b and ab, which abbreviates it too, does not |
| `Clp.MatchesIff` | fastclick-dpu/lib/clp.c:945-986 | an argument matches a long option if and only if it is its whole name, or a prefix of it and of no other option that it could mean; where a short option could be meant, it also has more than one character |
| `Clp.MatchesPlainly` | fastclick-dpu/lib/clp.c:398-462 | in terms of the options alone: an argument matches a name that it is a prefix of, up to an equals sign, if and only if it is all of it or a prefix of no other comparable name (of none but continuations, for a preferred option), and is not one character that another option has for its short name where it could be short |
| `Clp.KeyIs` | fastclick-dpu/lib/clp.c:907-943 | what is compared with a name ends at an equals sign |
| `Clp.MatchesFewerIff` | fastclick-dpu/lib/clp.c:945-986 | in the second pass an option is matched if and only if the argument stands for a prefix of its name that tells it from the others in the same way |
| `Clp.MatchIsUnique` | fastclick-dpu/lib/clp.c:945-978 | no argument matches options of two ids in the first pass, preferred matches or not |
| `Clp.OutcomeReordered` | fastclick-dpu/lib/clp.c:452-462 | how an option compares with an argument does not depend on the order of the options |
| `Clp.CompareArgument` | fastclick-dpu/lib/clp.c:959-971 | how one option compares with an argument: not eligible, partly, or with how many bytes |
| `Clp.FindInPass` | fastclick-dpu/lib/clp.c:958-978 | one pass finds the first match, and records up to four ambiguous ones |
| `Clp.PartialIff` | fastclick-dpu/lib/clp.c:970-981 | what is counted as ambiguous are, in order, the options whose name the argument is a prefix of without matching it |
| `Clp.FirstFourAre` | fastclick-dpu/lib/clp.c:970-981 | of these the first four are kept |
| `Clp.FindPrefixOpt` | fastclick-dpu/lib/clp.c:945-986 | the second pass decides exactly when nothing matches in the first, not even partly |
| `Clp.OrderIndependentIff` | fastclick-dpu/lib/clp.c:945-986 | what an argument finds is the same, up to aliases, in every order of the options if and only if something matches it in the first pass, if only partly, or options of at most one id do in the second |
| `Clp.OrderIndependentByName` | fastclick-dpu/lib/clp.c:945-986 | in terms of the names: what an argument finds is the same in every order if and only if it is a prefix of a name, or the prefixes that it stands for tell options of at most one id |
| `Clp.DashesDependOnOrder` | fastclick-dpu/lib/clp.c:930-935 | two names between which leaving out dashes cannot decide |
| `Ring.CircularBuffer.IncreaseBufferSize` | fastclick-dpu/lib/circularbuffer.cc:35-63 | growth keeps the contents, also when they wrap around the end |
| `Ring.CircularBuffer.RemoveDataAtBeginning` | fastclick-dpu/lib/circularbuffer.cc:75-99 | drops the bytes in front of a sequence number, at most all of them, and moves the start offset with them |
| `Ring.CircularBuffer.AddDataAtEnd` | fastclick-dpu/lib/circularbuffer.cc:101-141 | appends, growing as needed; afterwards there is room for one more byte |
| `Ring.CircularBuffer.GetData` | fastclick-dpu/lib/circularbuffer.cc:160-202 | refuses what is not in the data; otherwise copies from the ring, which is the slice asked for when it lies in the data; exactly when the index it starts at is behind the end of the array, nothing is promised |
| `Ring.RequestOutside` | fastclick-dpu/lib/circularbuffer.cc:160-202 | five bytes around the end of a ring of six, of which the fourth cannot be had |
| `Ring.BufferPoolNode.Resize` | fastclick-dpu/lib/bufferpoolnode.cc:34-39 | keeps the bytes that fit and fills up with zeros |
| `Ring.MovedWindow` | fastclick-dpu/lib/circularbuffer.cc:42-57 | moving the bytes from the start on to the new end keeps what the ring holds in order |
| `Ring.AppendedWindow` | fastclick-dpu/lib/circularbuffer.cc:109-140 | writing behind the data around the end of the array appends to it |
| `Ring.Run` | fastclick-dpu/lib/circularbuffer.cc:75-141 | any run of additions, removals and settings of the start offset is that run on a plain queue: the contents are what was there and what was added, less as many first bytes as were removed, and the offset is that of the queue |
| `Ring.NothingLost` | fastclick-dpu/lib/circularbuffer.cc:75-141 | on the queue, no byte is lost, made up or moved by any run |
| `Ring.OffsetCounts` | fastclick-dpu/lib/circularbuffer.cc:75-99 | once in use, the start offset counts the bytes removed, around the end of the 32-bit numbers |
| `Ring.TakenAhead` | fastclick-dpu/lib/circularbuffer.cc:75-99 | removing up to a sequence number removes as many bytes as it is ahead, or all |
| `Crc32.CrcState.GenCrcTable` | fastclick-dpu/lib/crc32.c:45-61 | fills the table with the register after each byte |
| `Crc32.CrcState.constructor` | fastclick-dpu/lib/crc32.c:22-61 | the polynomial of the state is the one with the powers 32, 26, 23, 22, 16, 12, 11, 10, 8, 7, 5, 4, 2, 1 and 0, and no others |
| `Crc32.PolynomialIsStandard` | fastclick-dpu/lib/crc32.c:22-41 | the constant has exactly these powers |
| `Crc32.MessageBitsAt` | fastclick-dpu/lib/crc32.c:64-82 | the data is taken byte by byte, and of every byte the most significant bit first |
| `Crc32.CrcState.ShiftByte` | fastclick-dpu/lib/crc32.c:51-58 | the register after one byte, shifted bit by bit |
| `Crc32.CrcState.UpdateCrc` | fastclick-dpu/lib/crc32.c:64-82 | the table-driven form equals the bit-serial register, for every accumulator and data |
| `Crc32.TableStep` | fastclick-dpu/lib/crc32.c:72-79 | one table lookup is eight steps of the register |
| `Crc32.SerialLinear` | fastclick-dpu/lib/crc32.c:27-34 | the register is linear over exclusive or, in the accumulator and the data |
| `Crc32.CrcOfCodewordIsZero` | fastclick-dpu/lib/crc32.c:27-34 | data followed by its own checksum, most significant byte first, leaves zero |
| `Crc32.CrcIsRemainder` | fastclick-dpu/lib/crc32.c:27-34 | the register is the remainder of the polynomial of the data, times x^32, with the accumulator added in front |
| `Crc32.RemainderExists` | fastclick-dpu/lib/crc32.c:27-34 | that long division is one: the polynomial is a multiple of the generator and the remainder |
| `Crc32.RemainderUnique` | fastclick-dpu/lib/crc32.c:27-34 | and whatever is left over from a multiple of the generator is that remainder |
| `ByteStream.ByteStreamMaintainer.Initialize` | fastclick-dpu/lib/bytestreammaintainer.cc:41-59 | puts a guard at the start of the flow in both trees, once |
| `ByteStream.ByteStreamMaintainer.MapAckPosition` | fastclick-dpu/lib/bytestreammaintainer.cc:61-107 | for a tree and a position in one sequence window, the word answered is the position that the map of acknowledgements over the integers gives |
| `ByteStream.ByteStreamMaintainer.MapSeqPosition` | fastclick-dpu/lib/bytestreammaintainer.cc:109-169 | the same for the map of sequence numbers |
| `ByteStream.MovedByLast` | fastclick-dpu/lib/bytestreammaintainer.cc:61-169 | a position moves by the offset of the last node at or before it (for a sequence number, before it), but not below where the offset of the node in front puts the start of the last one; in front of all nodes it stays |
| `ByteStream.ByteStreamMaintainer.InsertInTree` | fastclick-dpu/lib/bytestreammaintainer.cc:217-242 | in one sequence window, the tree of words is then the tree of integers with the node inserted; an empty tree holds that node alone |
| `ByteStream.InsertedMaps` | fastclick-dpu/lib/bytestreammaintainer.cc:217-242 | inserting at a key changes no acknowledgement before it and no sequence number up to it |
| `ByteStream.InsertedNodes` | fastclick-dpu/lib/bytestreammaintainer.cc:217-242 | the node inserted replaces the one with its key, and no other node changes |
| `ByteStream.AckMonotoneIff` | fastclick-dpu/lib/bytestreammaintainer.cc:61-107 | the map of acknowledgements keeps the order of all positions if and only if every bound stays within what the next node gives |
| `ByteStream.SeqMonotoneIff` | fastclick-dpu/lib/bytestreammaintainer.cc:109-169 | the same for sequence numbers, with their own condition |
| `ByteStream.NotMonotone` | fastclick-dpu/lib/bytestreammaintainer.cc:61-169 | a tree of two nodes for which neither map keeps the order |
| `ByteStream.BoundedIsMonotone` | fastclick-dpu/lib/bytestreammaintainer.cc:61-169 | both keep the order when every bound stays in its node's own stretch |
| `ByteStream.InsertionKeepsAckIff` | fastclick-dpu/lib/bytestreammaintainer.cc:217-242 | an insertion keeps the order of acknowledgements if and only if the steps next to its node are kept |
| `ByteStream.InsertionKeepsSeqIff` | fastclick-dpu/lib/bytestreammaintainer.cc:217-242 | the same for sequence numbers |
| `ByteStream.InsertedInWindow` | fastclick-dpu/lib/bytestreammaintainer.cc:217-242 | inside one sequence window, words are inserted as the integers they stand for |
| `ByteStream.AnswersInWindow` | fastclick-dpu/lib/bytestreammaintainer.cc:61-169 | inside one sequence window, words are mapped as the integers they stand for |
| `ByteStream.AnswersKeepOrder` | fastclick-dpu/lib/bytestreammaintainer.cc:61-169 | under those conditions the words answered keep the order of sequence numbers, inside one window |
| `FlowLayout.CountElements` | fastclick-dpu/lib/flowelement.cc:324-336 | counts the managers that reach an element, with its greatest distance |
| `FlowLayout.CountIs` | fastclick-dpu/lib/flowelement.cc:324-336 | an element counts as often as it occurs in the lists |
| `FlowLayout.SortElements` | fastclick-dpu/lib/flowelement.cc:344-351 | all elements once, the most shared first and then the nearest |
| `FlowLayout.FindMinPlace` | fastclick-dpu/lib/flowelement.cc:362-376 | the least place above the reserves of all managers that reach the element |
| `FlowLayout.MarkTaken` | fastclick-dpu/lib/flowelement.cc:382-400 | marks exactly the bytes of earlier elements that the element can reach, and finds a collision if there is one |
| `FlowLayout.TakenIsCollision` | fastclick-dpu/lib/flowelement.cc:392-404 | a place has a marked bit if and only if it collides with an earlier element |
| `FlowLayout.PlaceElement` | fastclick-dpu/lib/flowelement.cc:378-404 | the ordered place unless it collides, or the least place at or above the minimum that does not; the search ends |
| `FlowLayout.SetReserves` | fastclick-dpu/lib/flowelement.cc:412-421 | every reserve grows to cover all elements that its manager reaches, and no further |
| `FlowLayout.BuildFcb` | fastclick-dpu/lib/flowelement.cc:312-424 | places all elements in order or stops at a collision; in the ordered mode it places all if and only if no two of the places that the reserves and distances give overlap within reach; no element meets an earlier one that it can reach or lies in what a manager that reaches it reserved; then the reserves cover everything |
| `FlowLayout.LaidOutApart` | fastclick-dpu/lib/flowelement.cc:382-404 | an element has no byte in common with any earlier one that it can reach |
| `FlowLayout.ApartBytes` | fastclick-dpu/lib/flowelement.cc:382-404 | to be apart is to have no byte in common |
| `FlowLayout.LaidOutAboveReserves` | fastclick-dpu/lib/flowelement.cc:362-381 | no element lies in what a manager that reaches it reserved |
| `ErrorAnno.ParseLevel` | fastclick-dpu/lib/error.cc:70-95 | finds a number with its sign and fraction, and its integer part |
| `ErrorAnno.WriteAnno` | fastclick-dpu/lib/error.cc:97-131 | writes an annotation, with brackets, backslashes and newlines escaped |
| `ErrorAnno.ReadAnno` | fastclick-dpu/lib/error.cc:133-200 | reads one annotation of any kind, or none |
| `ErrorAnno.ReadAnnos` | fastclick-dpu/lib/error.cc:202-235 | fills in all names wanted from the annotations in front of a text |
| `ErrorAnno.NamedRoundTrip` | fastclick-dpu/lib/error.cc:97-200 | for a nonempty alphanumeric name and any value, an annotation is read back and reading stops at the rest of the text |
| `ErrorAnno.ValueRead` | fastclick-dpu/lib/error.cc:133-200 | a name and a value of any characters and escapes are read, with the escapes or raw, up to the brace in their line; without it there is no annotation |
| `ErrorAnno.NameRead` | fastclick-dpu/lib/error.cc:133-200 | a name without a colon has the empty value, and two braces are skipped without a name |
| `ErrorAnno.LevelRead` | fastclick-dpu/lib/error.cc:70-95 | a level is a number with or without a sign and a fraction, and its value is the integer part |
| `ErrorAnno.LevelRoundTripIff` | fastclick-dpu/lib/error.cc:97-151 | a level annotation is read back if and only if its value is a nonempty number |
| `ErrorAnno.AnnoRoundTripIff` | fastclick-dpu/lib/error.cc:97-200 | an annotation is read back if and only if its name is nonempty and alphanumeric, or it is a level with a nonempty number |
| `ErrorAnno.ParseRun` | fastclick-dpu/lib/error.cc:202-235 | parsing a run of annotations keeps the last value of every name, and stops at the rest of the text |
| `ErrorAnno.LastValue` | fastclick-dpu/lib/error.cc:220-232 | a name wanted as a string gets its last value in the run |
| `ErrorAnno.LastLevel` | fastclick-dpu/lib/error.cc:220-232 | a name wanted as a level gets the integer that its last value starts with |

## Left out

- `cp_va_*parse`, argument-type tables, and the lookup of elements, handlers and addresses: tables and wrappers around the readers.
- Parsing of floating-point numbers, times and bandwidths, and `cp_real2`/`cp_real10` for signed and 64-bit numbers: wrappers of the unsigned 32-bit forms; signed `DecimalFixedPointArg` does not negate (`args.cc:1007-1022`).
- Integers of more than one limb in `IntArg`, and the one-byte and two-byte results of `cp_basic_integer`.
- Overflow of the int that counts an exponent, of the one that collects a hexadecimal escape, and of the one that `parse_level` collects a level in: all are unbounded here.
- Failure to allocate memory, and the empty or marked strings that stand for it.
- Texts of error messages, the count of errors, and checks that only report (`clp.c:409-422`, two sections of long names in an archive).
- Locales and UTF-8: white space, letters and digits are those of the C locale.
- `FixedPointArg` and `cp_unparse_real2` with no fraction bits, where the code shifts a 32-bit word by 32.
- UnparseArchive: the fields of live elements have to fit their columns, for which alone the code reserves space.
- Clp: the massage of flags in `Clp_SetOptions`, short options, values and the rest of the parser. Short flags of options are given, as are names behind `no-`.
- FindPrefixOpt: for the options considered the match asked for is positive, as argcmp asserts (NeededIsPositive says when); two long options with equal empty names, which CLP reports when options are set, would break that.
- FixedPointRead: numbers with a negative count of integer digits, for which `ToFixedNegative` and `ReadsExactlyIff` say what is read, and likewise for DecimalRead with `ReadDecimalIff`.
- LineUncommented, LineUnquoted, LinesSplit, LineSplit: quotes, escapes and comments that are not closed, a slash or backslash in front of a blank or a comma, and escapes whose extent depends on the character behind them; the theorems about all texts cover these, and `HexDecodes` and `OctalDecodes` the last ones.
- GetData: what is copied when the index that it starts at is behind the end of the array, where the length of the first copy wraps around.
- Bit vectors: the copy constructor, swapping and the other word-wise operators.
- Resize: what a word behind the array holds when the code clears it, and likewise for Assign, OrAssign and OrWithDifference.
- OffsetOr: what a word behind the array holds when the code writes it.
- AppendSigned: the negation of the least 64-bit integer is that of two's complement.
- Red-black trees: a tree is the sequence of its nodes in order. `prune` and `lastOffsetInAckTree` are left out.
- BuildFcb: which elements reach which is given, ids of placed elements are kept in the order of placing, and announcements to elements and futures are left out.
- ReadAnno: the form without a string to cut names from, and the raw form of `combine_anno`, beyond what reading raw values does.
- DOCA, FlexIO, CUDA, DPDK and kernel-module code, packets, batches and buffers: device setup, foreign calls and I/O.
