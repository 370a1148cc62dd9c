# Verification of the formatted-print engine and of the scenario-step list

Two pieces of Zabbix 1.6.7 are modelled in Dafny 4.11 and proved correct:

* the portable `snprintf` family of `include/snprintf.c`: the eight-state format scanner `dopr`, the
  printers `fmtint`, `fmtstr` and `fmtfp`, the bounded output `dopr_outch`, and the wrappers
  `vsnprintf`, `snprintf`, `vasprintf` and `asprintf`;
* the step list of the web scenario form in `frontends/php/httpconf.php`: adding, deleting and moving
  steps, the nested loop that removes duplicate names, and the renumbering.

`dafny verify dfyconfig.toml` checks the whole project. Nothing was executed. Every lemma switches the
verifier's automatic induction off, so each induction is written out in its proof.

## How it is organised

| file | content |
|---|---|
| `Text.dfy`, `Numerals.dfy`, `FormatFlags.dfy` | strings with padding, numerals and the values they denote, flag bits |
| `Output.dfy` | the output buffer as a class: it counts every character and stores those that fit |
| `FmtStr.dfy`, `FmtInt.dfy`, `Modf.dfy`, `FmtFp.dfy`, `FpLaws.dfy` | the three printers, and what their text denotes |
| `Format.dfy` | the format language as a grammar, with a writer and a reader that are inverse to each other |
| `Render.dfy` | the reference: what a format prints and stores for given arguments |
| `Dopr.dfy`, `Asprintf.dfy` | the scanner loop and the wrappers, proved to refine the reference |
| `Laws.dfy` | end-to-end round trips |
| `Standard.dfy`, `Conformance.dfy` | C99's own account of the conversions, and exactly where the printers agree with it |
| `PhpArray.dfy`, `UniqueSteps.dfy`, `HttpConf.dfy` | PHP's ordered arrays, the closed form of the nested loop, and runs of requests |

The main results, hardest first.

1. `Dopr.Dopr`: for every format, argument list and buffer size, the loop prints exactly
   `Formatted(format, args)`, returns its length, stores the `%n` counts, and leaves in the buffer the
   text cut to size, the terminator, and every other cell as it was; it reads behind the format's
   terminator for exactly the formats that `Format.RunsOver` describes.
2. `Format.PiecesOfPrint` and `Format.PrintOfPieces`: the scanner's reading of formats is the inverse
   of writing directives, on all formats and all well-formed lists; concatenation follows from it.
3. `Modf.MyModf` and `FpLaws.FpReads`: the digit-by-digit printing of a real number reads back as the
   number rounded half up in the last digit, carries included, with termination of the recursion.
4. `HttpConf.StepList.MakeUnique`, `UniqueSteps.OuterTurn` and `UniqueSteps.FormIsUnique`: the closed
   form of a nested loop that overwrites, appends to and unsets the array it walks.
5. `Conformance.DirectiveAgreesIff`: for every directive that C99 defines, among those the scanner
   knows, and all arguments, the exact condition under which the printed text is C99's.
6. `HttpConf.AllVisits` and `HttpConf.WrittenDistinctIff`: every run of visits refines a run on plain
   lists, leaves distinct names, and hands the database a list with a repeated name if and only if one
   of its visits saves while its own edit collides.

## Where the code differs from C99

The file says that it follows C99 (ISO/IEC 9899:1999, section 7.19.6). The model follows the code, and
`Standard.dfy` states what section 7.19.6.1 asks for. The two differ; `Conformance.StringAgreesIff`,
`IntAgreesIff`, `FpAgreesIff` and `CharAgreesIff` give the exact conditions for the printers, and
`DirectiveAgreesIff` for whole directives. `StringsFail`, `DecimalsFail`, `ZeroFlagFails`,
`OtherIntegersFail` and `RealsFail` hold failing inputs. The differences are:

* all conversions: a negative starred width pads nothing instead of padding on the right, and a lone
  point (`%.d`, `%.f`, `%.s`) counts as no precision instead of zero;
* `%s`: a precision below the width is raised to it, so `%5.3s` can print five characters; a starred
  precision below -1 prints nothing;
* `%c`: the width is ignored;
* integers: the zero flag wins over a minus flag and over a precision; zero at precision zero prints a
  digit; the `#` flag is ignored; an `h` modifier does not convert to a short; unsigned decimals from
  10^19 and octals from 2^57 lose their leading digits (`FmtInt.IntRoundTripDomains`);
* `%f`: at most 16 places; the `#` flag is ignored; one column of padding is missing when the precision
  is zero, and one zero when zeros are filled in behind a sign (lengths in `FpLaws.FpLength`).

Outside these theorems: `hh`, `j`, `z`, `t`, `F`, `a` and `A` are not known to the scanner, `%e` and
`%g` consume their argument and print nothing, and `%p`, which C99 leaves open, may print a minus sign.
A format that ends in a `%w` directive, which C99 does not define, makes the scanner read past the
terminator.

## Modelling decisions

* `int` is 32 bits, `long`, `long long` and `size_t` are 64 bits, two's complement. Negating the
  smallest `long` and adding one to the largest `int`, which C leaves undefined, wrap around.
* An argument list is a sequence of values tagged with their C types. A call requires, as C does, that
  the arguments the format asks for are there and of the right types.
* Floating values are exact reals. A real that is printed must be below 2^63 * 10^99 in magnitude:
  beyond it the code multiplies the whole number up and converts it out of range. The out-of-range
  cast inside `my_modf` is a value that fails the test at line 592; `MyModf` itself covers all reals.
* Width and precision are unbounded integers.
* A char is printed modulo 256; a null string pointer prints `(NULL)`.
* The buffer, its size and the running length, which C passes as three arguments, are one class,
  `Sink`; its ghost field `text` is everything printed so far.
* Loops that the printers repeat (padding, emptying a digit array, extracting digits) are written once
  and called; long functions are cut into methods along their stages. The local variables of `dopr`
  are one record, `Scanner`.
* Allocation success is a parameter of `VAsprintf`.
* A PHP array is a sequence of entries with distinct integer keys in insertion order. Each `foreach`
  walks the list as it was when the loop started. A request that carries no steps carries the empty
  list.

## Model

| member | source | states |
|---|---|---|
| Dopr.Dopr | include/snprintf.c:165-424 | on every format the loop terminates, returns the length of the reference text and stores what `%n` must store; cell by cell, the buffer holds the text up to the last usable cell but one, a NUL behind it, and every other cell as it was, nothing at all being written for size 0; it reads behind the terminator if and only if the format does not stay inside, and then the whole text is printed but not terminated |
| Dopr.ConvCase | include/snprintf.c:282-408 | a conversion prints its reference text, takes exactly its arguments, and the scanner goes on behind it with cleared variables, what is printed and what lies ahead still making up the whole |
| Dopr.ConvLands | include/snprintf.c:282-408 | after a conversion character the owed text is reduced by exactly that conversion; a `w` in front of the terminator leaves the format, with nothing more owed |
| Dopr.Convert | include/snprintf.c:283-403 | every conversion letter prints its reference text, consumes its kinds of argument and records the count of `%n` |
| Dopr.StepFlags | include/snprintf.c:198-224 | reading a flag character keeps the scan's outcome and the decoded flags |
| Dopr.StepMin | include/snprintf.c:225-236 | reading the width keeps the outcome; a star takes the next argument |
| Dopr.StepDot | include/snprintf.c:237-244 | a point opens the precision, anything else goes on to the modifier |
| Dopr.StepMax | include/snprintf.c:245-258 | reading the precision keeps the outcome; it starts at -1 and a star takes the next argument |
| Dopr.StepMod | include/snprintf.c:259-281 | h, l, ll and L are told apart and the conversion state follows |
| Format.DirectiveSpelled | include/snprintf.c:198-281 | a written directive in plain characters: flags, width and star, point with precision and star, h, l, ll or L, conversion |
| Format.DirectiveRoundTrip | include/snprintf.c:198-281 | scanning a written directive yields exactly its flags, width, precision, stars, modifier and conversion, whatever follows |
| Format.PiecesOfPrint | include/snprintf.c:186-408 | reading a written list of pieces gives the list back |
| Format.PrintOfPieces | include/snprintf.c:186-408 | every format reads as a well-formed list that writes back to it: nothing is lost or invented |
| Format.PiecesUnique | include/snprintf.c:186-408 | a format has exactly one well-formed reading |
| Format.PiecesAppend | include/snprintf.c:191-197 | behind a format that closes its directives the scanner starts afresh |
| Format.RunsOver | include/snprintf.c:396-404 | the formats that do not stay inside are those that close all directives and then end in a `w` directive |
| Format.PercentWRunsOver | include/snprintf.c:396-404 | `%w` is one; `%w.` and `w` are not |
| Format.OnlyWRunsOver | include/snprintf.c:396-404 | such a format ends in the letter w, which a caller can check |
| Render.RenderedAppend | include/snprintf.c:186-415 | lists of pieces print independently, each from its own arguments |
| Render.StoresAppend | include/snprintf.c:374-392 | their `%n` stores likewise, the later ones counting the earlier text |
| Render.FormattedAppend | include/snprintf.c:186-415 | concatenation law for formats, arguments, text and stores |
| Laws.DirectivePrints | include/snprintf.c:282-408 | a format of one directive prints its conversion with the flags, width and precision that were written |
| Laws.SignedRoundTrip | include/snprintf.c:284-294 | the int, long or long long argument reads back under any flags, width, precision and stars |
| Laws.UnsignedRoundTrip | include/snprintf.c:295-333 | the unsigned argument reads back, hexadecimal always, decimal and octal exactly below 10^19 and 2^57 |
| Laws.PointerReads | include/snprintf.c:370-373 | a pointer reads back as a signed long in hexadecimal |
| Laws.HexCase | include/snprintf.c:320-333 | the letter case of the conversion is the case of the digits |
| Laws.RealRoundTrip | include/snprintf.c:334-341 | a double, or with L a long double, below 2^63 * 10^99 reads back rounded half up at the precision |
| Laws.StringPrinted | include/snprintf.c:361-369 | the string argument prints padded on the side the flags name and then cut, no shorter than the width |
| Laws.CharPrinted | include/snprintf.c:358-360 | the char argument prints as itself |
| Laws.PercentPrinted | include/snprintf.c:393-395 | a percent sign prints as itself behind any flags, width and precision |
| Laws.SilentPrints | include/snprintf.c:342-357 | e and g take their argument and print nothing; unknown conversions take and print nothing |
| Laws.WSwallows | include/snprintf.c:396-404 | `%w` prints nothing and skips the character behind it |
| Laws.EscapeRoundTrip | include/snprintf.c:191-197 | a text with doubled percent signs prints as itself |
| Laws.NumbersRoundTrip | include/snprintf.c:198-281 | flags in any order, a width, a precision, a modifier and a conversion written in decimal scan back to exactly these, a zero width being left out |
| Laws.NumbersMean | include/snprintf.c:225-258 | and are taken for exactly these numbers |
| Laws.FlagsAreNamed | include/snprintf.c:198-224 | flag characters set exactly the flags they name, in any order and with repeats |
| Laws.WidthStarWritten | include/snprintf.c:229-232 | a starred width prints what the same directive prints with the argument written out, and a negative one what it prints without a width |
| Laws.PrecisionStarWritten | include/snprintf.c:251-254 | likewise for a starred precision, a negative one counting as none |
| Laws.CountStored | include/snprintf.c:374-392 | `%n`, `%hn`, `%ln` and `%lln` store the length of what the format before them printed into an int, short, long or long long, independent of any buffer, exactly while it fits and wrapped beyond |
| Asprintf.VSnprintf | include/snprintf.c:781-784 | the buffer contract of dopr, with the length converted to int |
| Asprintf.Snprintf | include/snprintf.c:797-806 | the same through the size_t of snprintf |
| Asprintf.VAsprintf | include/snprintf.c:809-827 | measure, allocate, print: a positive result below INT_MAX comes with a block of exactly that many characters and a NUL, all of the text when it is shorter than INT_MAX; otherwise the pointer is untouched or null; every `%n` stores twice when the second pass is reached |
| Asprintf.Asprintf | include/snprintf.c:832-843 | the same from a cleared pointer, which stays null exactly when nothing is allocated |
| Asprintf.IntFits | include/snprintf.c:809-827 | the int result is the true length if and only if it is at most INT_MAX |
| Output.Sink.Put | include/snprintf.c:769-775 | a character is always counted, stored only if it fits, and no other cell changes |
| Output.Sink.Terminate | include/snprintf.c:416-421 | the buffer ends as the cut text, NUL and the old cells |
| Output.StoredCells | include/snprintf.c:416-421 | the same cell by cell |
| Output.StoredText | include/snprintf.c:416-421 | what a caller reads back is the text up to its first NUL, cut to the size less one |
| Output.CTextOf | include/snprintf.c:416-421 | a text without NUL shows in full |
| Output.TruncationMonotone | include/snprintf.c:416-423 | a smaller buffer holds a prefix of what a larger one holds, and a large enough one all of it |
| FmtStr.FmtStr | include/snprintf.c:426-460 | prints the first max characters of the padded string |
| FmtInt.FmtInt | include/snprintf.c:464-546 | prints the reference text for every value, base, width, precision and flag set |
| FmtInt.SignAndMagnitude | include/snprintf.c:478-490 | minus exactly for signed negatives, else plus or space exactly as the flags say; the magnitude or the bit pattern, the smallest long included |
| FmtInt.Convert | include/snprintf.c:494-501 | the do-while loop finds the digits lowest first, at most 20, and keeps at most 19 |
| FmtInt.IntReads | include/snprintf.c:478-501 | value law: the text denotes the number modulo base^19, whatever the layout |
| FmtInt.IntRoundTrip | include/snprintf.c:494-501 | it denotes the number itself if and only if the number is below base^19 |
| FmtInt.IntRoundTripDomains | include/snprintf.c:494-501 | which makes it exact for all signed decimals and all hex, and below 10^19 and 2^57 for the others |
| FmtInt.IntShape | include/snprintf.c:503-545 | spaces, the sign spelled out over the flags, zeros, digits, spaces, with spaces on the one side the flags name, digits in the right case, and no leading zero among them unless some were dropped |
| FmtInt.IntLength | include/snprintf.c:503-545 | the number of columns in closed form |
| Numerals.Positions | include/snprintf.c:494-501 | the positional system in base 8, 10 and 16, written out |
| Modf.MyModf | include/snprintf.c:583-614 | terminates on every real; within reach the integral part is the truncation and the result the rest, beyond reach both are zero |
| Modf.Scale | include/snprintf.c:590-595 | the scaling loop stops at the first value in the range of a long and says when there is none |
| Modf.Remainder | include/snprintf.c:603-610 | what is recursed on is smaller than the scale, and the two whole parts add up to the truncation |
| Modf.FewScalings | include/snprintf.c:590-610 | a remainder below 10^(k+1) needs at most k scalings, so the recursion descends |
| Modf.Round | include/snprintf.c:570-579 | rounds half up from zero upwards and truncates below |
| Modf.Pow10 | include/snprintf.c:558-568 | the loop computes the power of ten |
| FmtFp.FmtFp | include/snprintf.c:617-767 | prints the reference text, which is built from the number rounded as a whole |
| FmtFp.RoundSplit | include/snprintf.c:673-681 | rounding the scaled fraction alone is rounding the whole scaled number |
| FmtFp.SplitAndRound | include/snprintf.c:673-681 | integer part and scaled fraction, with the carry, are quotient and remainder of the rounded number, and have at most 118 digits |
| FmtFp.NextDigit | include/snprintf.c:686-692 | one turn of a digit loop yields the lowest decimal digit and the rest |
| FmtFp.ExtractDigits | include/snprintf.c:684-711 | the digit loops yield exactly the decimal digits, at most 118 cells, so the 311 cut-off is never reached |
| FpLaws.FpReads | include/snprintf.c:617-767 | value law: read back, the text is the number rounded half up at the precision, with its sign, within half a unit of the last place |
| FpLaws.FpShape | include/snprintf.c:713-766 | the sign spelled out over the flags, padding of one kind in the one place they name, canonical digits before the point and exactly p behind it, p being at most 16 |
| FpLaws.FpLength | include/snprintf.c:713-766 | width law with the two cases in which a column is missing |
| Conformance.StringPrints | include/snprintf.c:361-369 | the `s` conversion in closed form: whole, cut no shorter than the width, or empty |
| Conformance.StringAgreesIff | include/snprintf.c:361-369 | for all strings, widths and precisions the text is C99's if and only if a negative width asks for no padding, a precision is not below the width or cuts nothing or exposes only blanks, and a lone point or a precision below -1 meets a string for which it makes no difference |
| Conformance.CharAgreesIff | include/snprintf.c:358-360 | a char is C99's if and only if the width asks for no padding |
| Conformance.LayoutAgreesIff | include/snprintf.c:503-545 | the integer layout is C99's if and only if a negative width asks for no padding, the zero flag stands alone or has nothing to fill, and an octal zero is supplied by zero padding |
| Conformance.StdReads | include/snprintf.c:478-501 | C99's text denotes the number, so another number is another text |
| Conformance.IntAgreesIff | include/snprintf.c:464-546 | an integer's text is C99's if and only if 19 digits hold the number, C99 wants a digit and no prefix, no h modifier changes the number, and the layouts agree |
| Conformance.FpAgreesIff | include/snprintf.c:617-767 | a real's text is C99's if and only if the precision is at most 16 and not a lone point, the number flag does not ask for a bare point, a negative width asks for no padding, and there is nothing to fill at precision zero or with zeros behind a sign |
| Conformance.DirectiveAgreesIff | include/snprintf.c:282-373 | the same for whole directives and argument lists, C99's side reading flags, width, precision and argument for itself |
| Standard.ZeroSamples | include/snprintf.c:503-512 | what C99 asks of the zero flag, on four inputs |
| Standard.DecimalSamples | include/snprintf.c:482-508 | likewise of width, precision, plus and space |
| Standard.PrefixSamples | include/snprintf.c:462-462 | likewise of `#` |
| Standard.StringSamples | include/snprintf.c:361-369 | likewise of strings |
| Conformance.StringsFail | include/snprintf.c:361-369 | strings for which the text is not C99's |
| Conformance.DecimalsFail | include/snprintf.c:503-545 | decimals for which it is not |
| Conformance.ZeroFlagFails | include/snprintf.c:506-512 | zero flags for which it is not |
| Conformance.OtherIntegersFail | include/snprintf.c:478-501 | further integers: h, the largest unsigned long, `#` |
| Conformance.RealsFail | include/snprintf.c:713-766 | formats for which it is C99's for no real |
| UniqueSteps.InnerNext | frontends/php/httpconf.php:295-300 | one turn of the inner loop: the duplicate is read, absorbed into the current key and dropped |
| UniqueSteps.OuterTurn | frontends/php/httpconf.php:294-301 | one turn of the outer loop takes the closed form for i entries to that for i + 1 |
| UniqueSteps.FormIsUnique | frontends/php/httpconf.php:294-301 | the loop leaves the steps of unique name in order, then the last of each repeated name in the order of these last occurrences |
| UniqueSteps.UniqueShape | frontends/php/httpconf.php:292-301 | the closed form in terms of the list alone: the places of unique name in order, then the last places of the repeated names in order, none missing |
| UniqueSteps.UniqueNames | frontends/php/httpconf.php:292-301 | no name is left twice |
| UniqueSteps.UniqueKeepsLast | frontends/php/httpconf.php:292-301 | every name is kept, with the data of its last occurrence, and nothing else is |
| UniqueSteps.UniqueIdentity | frontends/php/httpconf.php:292-301 | a list of distinct names is left as it is |
| UniqueSteps.UniqueIdempotent | frontends/php/httpconf.php:292-301 | doing it twice is doing it once |
| HttpConf.StepList.MakeUnique | frontends/php/httpconf.php:294-301 | the nested loop over the mutated array computes the closed form |
| HttpConf.StepList.Delete | frontends/php/httpconf.php:126-130 | unsets the selected keys that are set |
| HttpConf.StepList.Exchange | frontends/php/httpconf.php:135-152 | the two keys change their data, all keys, other data and the order stay; nothing changes when the neighbour is not set |
| HttpConf.StepList.Handle | frontends/php/httpconf.php:126-302 | one request: action, unique names, dense keys; the list as it came goes to the database exactly when save is asked for and no other action comes first |
| HttpConf.OneVisit | frontends/php/httpconf.php:126-302 | one visit through the class is one step of the run on plain lists |
| HttpConf.AllVisits | frontends/php/httpconf.php:126-302 | every run of visits through the class keeps the array dense, ends in the list of the plain run, saves what it writes, and leaves distinct names |
| HttpConf.ActRefines | frontends/php/httpconf.php:126-209 | on every dense array the actions are list removal, append and exchange of neighbours |
| HttpConf.HandedIs | frontends/php/httpconf.php:172-194 | when a visit hands its list over, spelled out over the request |
| HttpConf.WrittenBySaves | frontends/php/httpconf.php:172-194 | a run writes at most as many lists as visits ask for a save, none without, and each is the one posted in such a visit |
| HttpConf.IdleRefines | frontends/php/httpconf.php:292-302 | a visit without an action leaves the posted list |
| HttpConf.WrittenDistinctIff | frontends/php/httpconf.php:172-194 | all lists that a run saves have distinct names if and only if no visit saves with an edit that takes the name of another carried step |
| HttpConf.WritesDuplicate | frontends/php/httpconf.php:172-194 | a run of one visit that saves a repeated name |
| HttpConf.DeleteRefines | frontends/php/httpconf.php:126-130 | on a carried list, deleting removes exactly the selected places |
| HttpConf.MoveUpRefines | frontends/php/httpconf.php:135-143 | on a carried list, moving up is an adjacent exchange, nothing at the top |
| HttpConf.MoveDownRefines | frontends/php/httpconf.php:144-152 | on a carried list, moving down is an adjacent exchange, nothing at the end |
| HttpConf.AddRefines | frontends/php/httpconf.php:131-134 | on a carried list, adding appends, and takes out the step that had the name |

## Left out

- IEEE rounding, NaN, infinities, negative zero and the narrowing of long double to double: reals are exact.
- Dopr.Dopr: stops where the code would read past the terminator, and does not say what it would then read or store.
- Dopr.Convert: `%n` targets are a list of stored values, not memory cells, so a target that aliases the buffer is not modelled.
- Asprintf.VAsprintf: for a result of INT_MAX only the pointer and the result are stated, not the block, because the code overflows an int there.
- Output.Sink.Put: the running length is unbounded and does not wrap around at 2^64.
- HttpConf.AllVisits: a visit posts the carried list, at most one step of it edited; other posted arrays are covered one request at a time by StepList.Handle.
- Overflow of a width or precision written with more digits than an int holds.
- The variable argument machinery, `VA_COPY`, locale, and the configure-time switches.
- The test program at the end of `include/snprintf.c` and the debug prints.
- String keys of the posted step array, which PHP compares loosely; a form sends integer keys only.
- The actions on whole scenarios in `frontends/php/httpconf.php`, which leave the step list alone.
- Validation of request fields, permissions, SQL, audit records and HTML in `frontends/php/httpconf.php`.
- Declarations in the headers of `include/`, which have no bodies.
