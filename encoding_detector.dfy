/** `JSMin\EncodingDetector`: sniff a byte-order mark at the head of the
    input, strip it, and transcode the rest to the target encoding unless
    the two encodings already agree ignoring case. */
module EncodingDetector {
  import opened Wrappers
  import opened PhpStrings

  /** `EncodingDetector::DEFAULT_ENCODING`. */
  const DEFAULT_ENCODING: string := "UTF-8"

  /** The message of the exception thrown when iconv reports failure. */
  const CONVERSION_FAILED: string := "Input string could not be converted."

  /** `JSMin\EncodingException`. */
  datatype EncodingException = EncodingException(message: string)

  /** The five byte-order marks the detector recognises. */
  datatype Bom = Utf8 | Utf32Be | Utf32Le | Utf16Be | Utf16Le

  /** The bytes of each byte-order mark: U+FEFF in that encoding scheme. */
  function Signature(b: Bom): (sig: seq<Byte>)
    ensures 2 <= |sig| <= 4
  {
    match b
    case Utf8 => [0xEF, 0xBB, 0xBF]
    case Utf32Be => [0x00, 0x00, 0xFE, 0xFF]
    case Utf32Le => [0xFF, 0xFE, 0x00, 0x00]
    case Utf16Be => [0xFE, 0xFF]
    case Utf16Le => [0xFF, 0xFE]
  }

  /** The encoding name the detector reports for each byte-order mark. */
  function EncodingName(b: Bom): (name: string)
    ensures StrToUpper(name) == name
  {
    match b
    case Utf8 => "UTF-8"
    case Utf32Be => "UTF-32BE"
    case Utf32Le => "UTF-32LE"
    case Utf16Be => "UTF-16BE"
    case Utf16Le => "UTF-16LE"
  }

  /** The only overlap in the table: the UTF-16LE mark `FF FE` begins the
      UTF-32LE mark `FF FE 00 00`; no other mark begins another. */
  lemma SignatureOverlaps(b: Bom, c: Bom)
    ensures StartsWith(Signature(c), Signature(b)) <==> b == c || (b == Utf16Le && c == Utf32Le)
  {
    var sb, sc := Signature(b), Signature(c);
    if |sb| <= |sc| {
      // the comparison is decided by the first two or three bytes
      assert sc[..|sb|][0] == sc[0] && sc[..|sb|][1] == sc[1];
      if |sb| == 3 {
        assert sc[..|sb|][2] == sc[2];
      }
    }
  }

  /** The ordered if/elseif chain of `decode`: the 3-byte UTF-8 mark, then
      both 4-byte UTF-32 marks, then the 2-byte UTF-16 marks, each compared
      with a `substr` of the input of the mark's length. The mark found is
      the longest one the input begins with, and none is found exactly when
      the input begins with no mark. */
  function SniffBom(input: seq<Byte>): (found: Option<Bom>)
    ensures found.Some? ==> StartsWith(input, Signature(found.value))
    ensures found.Some? ==> forall c :: StartsWith(input, Signature(c)) ==>
      |Signature(c)| <= |Signature(found.value)|
    ensures found.None? <==> forall c :: !StartsWith(input, Signature(c))
  {
    var first2, first3, first4 := Head(input, 2), Head(input, 3), Head(input, 4);
    HeadMatchesOnlyWholePattern(input, Signature(Utf8));
    HeadMatchesOnlyWholePattern(input, Signature(Utf32Be));
    HeadMatchesOnlyWholePattern(input, Signature(Utf32Le));
    HeadMatchesOnlyWholePattern(input, Signature(Utf16Be));
    HeadMatchesOnlyWholePattern(input, Signature(Utf16Le));
    if first3 == Signature(Utf8) then Some(Utf8)
    else if first4 == Signature(Utf32Be) then Some(Utf32Be)
    else if first4 == Signature(Utf32Le) then Some(Utf32Le)
    else if first2 == Signature(Utf16Be) then Some(Utf16Be)
    else if first2 == Signature(Utf16Le) then Some(Utf16Le)
    else None
  }

  /** The encoding `decode` settles on and what is left of the input. */
  datatype Detection = Detection(encoding: string, remainder: seq<Byte>)

  /** Detection and stripping: the input with its mark removed, together
      with the mark's encoding; without a mark, UTF-8 and the whole input.
      The remainder is always a suffix of the input, shorter by 0, 2, 3 or 4
      bytes, and what was cut off is exactly the mark found. */
  function DetectAndStrip(input: seq<Byte>): (d: Detection)
    ensures |d.remainder| <= |input| && input[|input| - |d.remainder|..] == d.remainder
    ensures |input| - |d.remainder| in {0, 2, 3, 4}
    ensures SniffBom(input).None? ==> d.encoding == "UTF-8" && d.remainder == input
    ensures SniffBom(input).Some? ==>
      d.encoding == EncodingName(SniffBom(input).value) &&
      input[..|input| - |d.remainder|] == Signature(SniffBom(input).value)
  {
    match SniffBom(input)
    case Some(b) => Detection(EncodingName(b), input[|Signature(b)|..])
    case None => Detection("UTF-8", input)
  }

  /** `get_encoding`: the configured `default_encoding` when it is set and
      non-empty, else `DEFAULT_ENCODING`. Never the empty name. */
  function GetEncoding(iniValue: Option<string>): (target: string)
    ensures target != ""
    ensures iniValue.Some? && iniValue.value != "" ==> target == iniValue.value
    ensures iniValue.None? || iniValue.value == "" ==> target == DEFAULT_ENCODING
  {
    if iniValue.Some? && iniValue.value != "" then iniValue.value else DEFAULT_ENCODING
  }

  /** The target `decode` converts to: the caller's argument verbatim when
      given, otherwise the result of `get_encoding`. */
  function ResolveTarget(targetEncoding: Option<string>, iniValue: Option<string>): (target: string)
    ensures targetEncoding.Some? ==> target == targetEncoding.value
    ensures targetEncoding.None? ==> target == GetEncoding(iniValue)
    ensures target == "" ==> targetEncoding == Some("")
  {
    if targetEncoding.None? then GetEncoding(iniValue) else targetEncoding.value
  }

  /** What `decode` reads from its environment at call time: the
      `default_encoding` ini value (None for null or false), and whether
      `check_mbstring` holds (mbstring loaded with its function overloading
      of string functions switched on). */
  datatype Environment = Environment(defaultEncoding: Option<string>, mbstringOverload: bool)

  /** `mb_convert_encoding($str, $to, $from)`: total, with no failure value. */
  type MbConverter = (seq<Byte>, string, string) -> seq<Byte>

  /** `iconv($from, $to, $str)`: None models its `false` result. */
  type IconvConverter = (string, string, seq<Byte>) -> Option<seq<Byte>>

  /** Whether `decode` transcodes at all: only when the detected and the
      target encoding differ after upper-casing. */
  predicate NeedsConversion(encoding: string, target: string)
    ensures encoding == target ==> !NeedsConversion(encoding, target)
    ensures |encoding| != |target| ==> NeedsConversion(encoding, target)
  {
    !SameIgnoringCase(encoding, target)
  }

  /** `EncodingDetector::decode`: resolve the target, detect and strip the
      mark, then transcode the remainder unless the encodings agree
      ignoring case. Only the iconv path can fail, and then with
      `CONVERSION_FAILED` and no output. */
  function Decode(input: seq<Byte>, targetEncoding: Option<string>, env: Environment,
                  mbConvert: MbConverter, iconv: IconvConverter): (r: Result<seq<Byte>, EncodingException>)
    ensures var target := ResolveTarget(targetEncoding, env.defaultEncoding);
            var d := DetectAndStrip(input);
            && (!NeedsConversion(d.encoding, target) ==> r == Success(d.remainder))
            && (r.Failure? <==>
                  NeedsConversion(d.encoding, target) && !env.mbstringOverload &&
                  iconv(d.encoding, target, d.remainder).None?)
            && (r.Failure? ==> r.error == EncodingException(CONVERSION_FAILED))
            && (NeedsConversion(d.encoding, target) && env.mbstringOverload ==>
                  r == Success(mbConvert(d.remainder, target, d.encoding)))
            && (NeedsConversion(d.encoding, target) && r.Success? && !env.mbstringOverload ==>
                  iconv(d.encoding, target, d.remainder) == Some(r.value))
  {
    var target := ResolveTarget(targetEncoding, env.defaultEncoding);
    var d := DetectAndStrip(input);
    if !NeedsConversion(d.encoding, target) then
      Success(d.remainder)
    else if env.mbstringOverload then
      Success(mbConvert(d.remainder, target, d.encoding))
    else
      match iconv(d.encoding, target, d.remainder)
      case None => Failure(EncodingException(CONVERSION_FAILED))
      case Some(converted) => Success(converted)
  }
}
