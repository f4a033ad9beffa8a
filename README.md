# EncodingDetector (jsmin-php) in Dafny

This project models `JSMin\EncodingDetector` from jsmin-php. Its `decode`
operation takes the raw bytes of a script and looks at the first two to four
bytes for one of the five byte-order marks (the encoding-scheme signatures of
section 3.10 of the Unicode Standard): UTF-8 `EF BB BF`, UTF-32BE
`00 00 FE FF`, UTF-32LE `FF FE 00 00`, UTF-16BE `FE FF` and UTF-16LE `FF FE`.
It removes the mark it finds and picks the target encoding. That is the
caller's argument, else the `default_encoding` ini value when it is
non-empty, else `UTF-8`. It then transcodes the rest only when the two
encoding names differ after upper-casing. The transcoding is done by
`mb_convert_encoding` when mbstring function overloading is on, otherwise by
`iconv`. Only a failed `iconv` call is reported, as an `EncodingException`.

Files:

- `wrappers.dfy`: `Option` and `Result`.
- `php_strings.dfy` (module `PhpStrings`): the byte type, and the two PHP
  built-ins the detector uses, with their byte-wise meaning.
  `substr($s, 0, $n)` is `Head`. `strtoupper` is `StrToUpper`, with the
  ASCII-only case mapping. With mbstring function overloading on, PHP
  replaces both by their `mb_` versions; see "## Left out".
- `encoding_detector.dfy` (module `EncodingDetector`): the mark table, the
  ordered sniffing chain, stripping, target resolution and `decode`.
- `encoding_detector_properties.dfy` (module `EncodingDetectorProperties`):
  lemmas about the model.

Environment reads and foreign calls are parameters. The `ini_get` /
`function_exists` probes are an `Environment` value: the `default_encoding`
ini value as an `Option` (None for `null` or `false`), and the result of
`check_mbstring` as a boolean. `mb_convert_encoding` is a total function
parameter and `iconv` is a parameter returning an `Option`. Each takes its
arguments in the PHP function's own order.

Comparisons: the source compares strings with PHP's loose `==` / `!=`.
Between two strings, that means numeric comparison only when both are
numeric strings. The marks and the detected encoding names are never numeric
strings, so these comparisons are modelled as plain equality.

## Model

| member | source | states |
|---|---|---|
| PhpStrings.Head | src/JSMin/EncodingDetector.php:61-63 | `substr($input, 0, n)` gives a prefix of the input, n bytes long or the whole input when shorter; never padded |
| PhpStrings.HeadMatchesOnlyWholePattern | src/JSMin/EncodingDetector.php:61-81 | comparing that prefix with a mark succeeds exactly when the input begins with the whole mark, so a short input never matches a longer mark |
| PhpStrings.UpperChar | src/JSMin/EncodingDetector.php:88 | `strtoupper` maps `a`..`z` to the matching capital and leaves every other character alone |
| PhpStrings.StrToUpper | src/JSMin/EncodingDetector.php:88 | `strtoupper` keeps the length and upper-cases each character at its own position |
| PhpStrings.StrToUpperIdempotent | src/JSMin/EncodingDetector.php:88 | upper-casing an upper-cased name changes nothing, so the case-insensitive comparison treats a name and its upper-case form alike |
| PhpStrings.UpperStringsAreFixed | src/JSMin/EncodingDetector.php:88 | a name with no lower-case ASCII letter, such as every name the detector reports, is its own upper-case form |
| PhpStrings.SameIgnoringCaseIsPointwise | src/JSMin/EncodingDetector.php:88 | two names compare equal ignoring case exactly when they have the same length and agree letter by letter after upper-casing (both directions) |
| PhpStrings.SameIgnoringCase | src/JSMin/EncodingDetector.php:88 | two names are equal after both are upper-cased; identical names always are, and names of different lengths never are |
| EncodingDetector.Signature | src/JSMin/EncodingDetector.php:67-81 | each mark is 2 to 4 bytes long |
| EncodingDetector.EncodingName | src/JSMin/EncodingDetector.php:67-83 | each reported encoding name is already upper case |
| EncodingDetector.SignatureOverlaps | src/JSMin/EncodingDetector.php:70-81 | one mark begins another exactly when they are the same mark or when `FF FE` (UTF-16LE) begins `FF FE 00 00` (UTF-32LE) |
| EncodingDetector.SniffBom | src/JSMin/EncodingDetector.php:61-85 | the ordered chain finds a mark the input begins with, and it is the longest such mark; it finds none exactly when the input begins with no mark |
| EncodingDetector.DetectAndStrip | src/JSMin/EncodingDetector.php:61-85 | the remainder is a suffix of the input, shorter by 0, 2, 3 or 4 bytes; what was cut off is exactly the mark found, and the encoding is that mark's; with no mark, UTF-8 and the whole input |
| EncodingDetector.GetEncoding | src/JSMin/EncodingDetector.php:128-138 | a set, non-empty `default_encoding` is used; otherwise `UTF-8`; the result is never empty |
| EncodingDetector.ResolveTarget | src/JSMin/EncodingDetector.php:52-54 | an explicit target is used verbatim, otherwise `get_encoding`'s choice; the target is empty only when the caller passed the empty string |
| EncodingDetector.NeedsConversion | src/JSMin/EncodingDetector.php:88 | decode converts exactly when the names differ after upper-casing; never for identical names, always for names of different lengths |
| EncodingDetector.Decode | src/JSMin/EncodingDetector.php:49-106 | equal encodings ignoring case return the stripped remainder unconverted; the call fails exactly when conversion is needed, mbstring overloading is off and iconv fails, and then with the message "Input string could not be converted."; otherwise the converter's output is returned |
| EncodingDetectorProperties.ShorterPrefixBeginsLonger | src/JSMin/EncodingDetector.php:61-81 | of two prefixes of one input, the shorter begins the longer |
| EncodingDetectorProperties.SniffBomFindsLongestMark | src/JSMin/EncodingDetector.php:67-85 | the longest mark an input begins with is the one detected, so the contract of the chain fixes its result |
| EncodingDetectorProperties.DetectsAndStripsMark | src/JSMin/EncodingDetector.php:67-81 | any mark followed by any rest is detected as that mark and stripped to exactly the rest, except `FF FE` followed by two zero bytes |
| EncodingDetectorProperties.Utf8MarkStripped | src/JSMin/EncodingDetector.php:67-69 | an input beginning `EF BB BF` is UTF-8 and loses exactly those 3 bytes |
| EncodingDetectorProperties.Utf32MarksStripped | src/JSMin/EncodingDetector.php:70-75 | `00 00 FE FF` gives UTF-32BE and `FF FE 00 00` gives UTF-32LE; each loses exactly 4 bytes |
| EncodingDetectorProperties.Utf16MarksStripped | src/JSMin/EncodingDetector.php:76-81 | `FE FF` gives UTF-16BE; `FF FE` not followed by `00 00` gives UTF-16LE; each loses exactly 2 bytes |
| EncodingDetectorProperties.Utf32LeNeverUtf16Le | src/JSMin/EncodingDetector.php:73-81 | any input beginning `FF FE 00 00` is UTF-32LE with 4 bytes removed, never UTF-16LE |
| EncodingDetectorProperties.UnmarkedInputKept | src/JSMin/EncodingDetector.php:82-85 | an input beginning with no mark is UTF-8 and kept byte for byte |
| EncodingDetectorProperties.ShortInputKept | src/JSMin/EncodingDetector.php:61-85 | an input of fewer than two bytes is UTF-8 and kept unchanged |
| EncodingDetectorProperties.MatchingTargetOnlyStrips | src/JSMin/EncodingDetector.php:49-105 | a resolved target equal to the detected encoding ignoring case yields the stripped remainder with no conversion |
| EncodingDetectorProperties.UpperCasedTargetSameBranch | src/JSMin/EncodingDetector.php:88-105 | a target and its upper-cased form take the same branch of `decode`, and give the same output when no conversion is needed |
| EncodingDetectorProperties.LowerCaseUtf8TargetUnchanged | src/JSMin/EncodingDetector.php:82-105 | unmarked input with the lower-case target `utf-8` is returned unchanged |
| EncodingDetectorProperties.UnmarkedUtf8Unchanged | src/JSMin/EncodingDetector.php:82-105 | unmarked input with target `utf-8` in any letter case is returned unchanged, whatever the converters do |
| EncodingDetectorProperties.DecodeStripsOneMarkOnly | src/JSMin/EncodingDetector.php:67-69 | only the first mark is removed: a doubled UTF-8 mark keeps its second copy until a second `decode` |
| EncodingDetectorProperties.RedecodeUnmarkedUtf8 | src/JSMin/EncodingDetector.php:49-106 | when the output of a UTF-8 decode carries no mark, decoding it again returns it unchanged |
| EncodingDetectorProperties.MbstringPathNeverFails | src/JSMin/EncodingDetector.php:89-90 | with mbstring overloading on, `decode` always returns output; no failure is reported on that path |
| EncodingDetectorProperties.EmptyInputUtf8Target | src/JSMin/EncodingDetector.php:49-105 | empty input gives empty output without error whenever the resolved target is UTF-8 ignoring case |
| EncodingDetectorProperties.Utf8MarkedHello | src/JSMin/EncodingDetector.php:67-69 | `EF BB BF 68 69` with the default target gives `68 69`, unconverted |
| EncodingDetectorProperties.Utf16BeMarkedHello | src/JSMin/EncodingDetector.php:76-101 | `FE FF 00 68 00 69` with the default target sends `00 68 00 69` to iconv from UTF-16BE to UTF-8; it returns iconv's output, or the conversion error when iconv fails |
| EncodingDetectorProperties.UnmarkedHelloUnchanged | src/JSMin/EncodingDetector.php:82-105 | `48 65 6C 6C 6F` with explicit target `UTF-8` is returned byte for byte |

## Left out

- The transcoders themselves (`mb_convert_encoding`, `iconv`) are foreign library calls. They are parameters, so no property of Unicode transcoding is stated. In particular, there is no round trip through a real UTF-16 encoder.
- `check_mbstring` probes `function_exists('mb_strlen')` and the value-2 flag (`& 2`) of `mbstring.func_overload`. Its result is a boolean in `Environment`; the probe itself and the `(int)` cast of the ini string are not modelled.
- `ini_get('default_encoding')` is an `Option<string>` parameter, read once per call. PHP's `false` for an unknown option and `null` are both `None`.
- The `DEBUG`-gated `error_log` calls are diagnostics only and are not modelled.
- EncodingDetector.Decode: with mbstring function overloading on (the value-2 flag of `mbstring.func_overload`, tested with `& 2` and available only before PHP 8.0), PHP runs `mb_substr` and `mb_strtoupper` in place of `substr` (lines 61-63, 69-81) and `strtoupper` (line 88). These count characters of `mbstring.internal_encoding`, UTF-8 by default. The model keeps byte semantics on that path. So where the source, on that path, does not strip a UTF-8 mark followed by more bytes (`EF BB BF 68 69` is then compared as a 5-byte string with the 3-byte mark), the model strips it.
- Versions: the mbstring path (`Environment(_, true)`) stands for PHP before 8.0 with overloading on. The iconv path stands for PHP 7.0 and later with overloading off. `strtoupper` is modelled with ASCII case mapping, which is exact from PHP 8.2 on. Before 8.2 it upper-cased according to the current locale; that is not modelled. The encoding names compared here are ASCII, and the C and POSIX locales map only `a`..`z`.
- EncodingDetector.Decode: before PHP 7.0, `substr($s, $n)` returns `false` when `$s` is exactly `$n` bytes long. So an input that is exactly one mark (`EF BB BF` alone, or any other mark alone) sets `$input` to `false` at lines 69, 72, 75, 78 or 81. On the no-conversion branch, `decode` then returns `false` (line 105). The model follows PHP 7.0 and later, where that `substr` gives the empty string, and returns `Success([])`.
- Empty input yields empty output only when the resolved target is UTF-8 ignoring case. With any other target, the converter decides the result.
- An explicit target that is not a string (PHP accepts any value) is not modelled; targets are strings.
- `mb_convert_encoding` can itself return `false` in PHP. The source does not check for that, so the model treats it as total and never reports an error on that path.
