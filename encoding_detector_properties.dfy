/** What `EncodingDetector::decode` promises, stated over the model. */
module EncodingDetectorProperties {
  import opened Wrappers
  import opened PhpStrings
  import opened EncodingDetector

  /** Of two prefixes of the same input, the shorter begins the longer. */
  lemma ShorterPrefixBeginsLonger(s: seq<Byte>, p: seq<Byte>, q: seq<Byte>)
    requires StartsWith(s, p) && StartsWith(s, q) && |p| <= |q|
    ensures StartsWith(q, p)
  {
    assert q[..|p|] == s[..|q|][..|p|] == s[..|p|];
  }

  /** The contract of `SniffBom` pins its result down: the mark an input
      begins with that is at least as long as every other mark it begins
      with is the one found. */
  lemma SniffBomFindsLongestMark(input: seq<Byte>, b: Bom)
    requires StartsWith(input, Signature(b))
    requires forall c :: StartsWith(input, Signature(c)) ==> |Signature(c)| <= |Signature(b)|
    ensures SniffBom(input) == Some(b)
  {
    var found := SniffBom(input).value;
    ShorterPrefixBeginsLonger(input, Signature(b), Signature(found));
    SignatureOverlaps(b, found);
  }

  /** An input made of a mark and a rest is detected as that mark's
      encoding and stripped to exactly the rest, except that `FF FE`
      followed by two zero bytes is the UTF-32LE mark. */
  lemma {:induction false} DetectsAndStripsMark(b: Bom, rest: seq<Byte>)
    requires b == Utf16Le ==> !StartsWith(rest, [0x00, 0x00])
    ensures SniffBom(Signature(b) + rest) == Some(b)
    ensures DetectAndStrip(Signature(b) + rest) == Detection(EncodingName(b), rest)
  {
    var input := Signature(b) + rest;
    assert input[..|Signature(b)|] == Signature(b);
    forall c | StartsWith(input, Signature(c))
      ensures |Signature(c)| <= |Signature(b)|
    {
      if |Signature(b)| < |Signature(c)| {
        ShorterPrefixBeginsLonger(input, Signature(b), Signature(c));
        SignatureOverlaps(b, c);
      }
    }
    SniffBomFindsLongestMark(input, b);
    assert input[|Signature(b)|..] == rest;
  }

  /** `EF BB BF` is read as UTF-8 and exactly those three bytes are removed. */
  lemma Utf8MarkStripped(rest: seq<Byte>)
    ensures DetectAndStrip([0xEF, 0xBB, 0xBF] + rest) == Detection("UTF-8", rest)
  {
    DetectsAndStripsMark(Utf8, rest);
  }

  /** `00 00 FE FF` is read as UTF-32BE and `FF FE 00 00` as UTF-32LE, never
      as UTF-16LE; both lose exactly four bytes. */
  lemma Utf32MarksStripped(rest: seq<Byte>)
    ensures DetectAndStrip([0x00, 0x00, 0xFE, 0xFF] + rest) == Detection("UTF-32BE", rest)
    ensures DetectAndStrip([0xFF, 0xFE, 0x00, 0x00] + rest) == Detection("UTF-32LE", rest)
  {
    DetectsAndStripsMark(Utf32Be, rest);
    DetectsAndStripsMark(Utf32Le, rest);
  }

  /** `FE FF` is read as UTF-16BE; `FF FE` not followed by two zero bytes
      as UTF-16LE; both lose exactly two bytes. */
  lemma Utf16MarksStripped(rest: seq<Byte>)
    ensures DetectAndStrip([0xFE, 0xFF] + rest) == Detection("UTF-16BE", rest)
    ensures !StartsWith(rest, [0x00, 0x00]) ==>
      DetectAndStrip([0xFF, 0xFE] + rest) == Detection("UTF-16LE", rest)
  {
    DetectsAndStripsMark(Utf16Be, rest);
    if !StartsWith(rest, [0x00, 0x00]) {
      DetectsAndStripsMark(Utf16Le, rest);
    }
  }

  /** Whatever follows `FF FE 00 00`, the input is UTF-32LE: the 4-byte
      marks are tried before the 2-byte ones. */
  lemma Utf32LeNeverUtf16Le(input: seq<Byte>)
    requires StartsWith(input, [0xFF, 0xFE, 0x00, 0x00])
    ensures SniffBom(input) == Some(Utf32Le)
    ensures DetectAndStrip(input) == Detection("UTF-32LE", input[4..])
  {
    assert input == Signature(Utf32Le) + input[4..];
    DetectsAndStripsMark(Utf32Le, input[4..]);
  }

  /** An input beginning with no mark, in particular one shorter than every
      mark it starts like, is UTF-8 and is kept byte for byte. */
  lemma UnmarkedInputKept(input: seq<Byte>)
    requires forall b :: !StartsWith(input, Signature(b))
    ensures DetectAndStrip(input) == Detection("UTF-8", input)
  {
  }

  /** Inputs of fewer than two bytes never carry a mark. */
  lemma ShortInputKept(input: seq<Byte>)
    requires |input| < 2
    ensures DetectAndStrip(input) == Detection("UTF-8", input)
  {
  }

  /** When the caller asks for a target equal to the detected encoding
      ignoring case, `decode` only strips the mark. */
  lemma MatchingTargetOnlyStrips(input: seq<Byte>, targetEncoding: Option<string>, env: Environment,
                                 mbConvert: MbConverter, iconv: IconvConverter)
    requires SameIgnoringCase(DetectAndStrip(input).encoding, ResolveTarget(targetEncoding, env.defaultEncoding))
    ensures Decode(input, targetEncoding, env, mbConvert, iconv) == Success(DetectAndStrip(input).remainder)
  {
  }

  /** Unmarked input asked for as `utf-8` in any letter case comes back
      unchanged, whichever converters are present. */
  lemma UnmarkedUtf8Unchanged(input: seq<Byte>, target: string, env: Environment,
                              mbConvert: MbConverter, iconv: IconvConverter)
    requires forall b :: !StartsWith(input, Signature(b))
    requires StrToUpper(target) == "UTF-8"
    ensures Decode(input, Some(target), env, mbConvert, iconv) == Success(input)
  {
    UpperStringsAreFixed("UTF-8");
  }

  /** `decode` removes one mark, not every mark: a doubled UTF-8 mark keeps
      its second copy, which a second `decode` then removes. */
  lemma DecodeStripsOneMarkOnly(env: Environment, mbConvert: MbConverter, iconv: IconvConverter)
    ensures Decode([0xEF, 0xBB, 0xBF, 0xEF, 0xBB, 0xBF], Some("UTF-8"), env, mbConvert, iconv)
            == Success([0xEF, 0xBB, 0xBF])
    ensures Decode([0xEF, 0xBB, 0xBF], Some("UTF-8"), env, mbConvert, iconv) == Success([])
  {
    UpperStringsAreFixed("UTF-8");
    var once: seq<Byte> := [0xEF, 0xBB, 0xBF];
    assert once + once == [0xEF, 0xBB, 0xBF, 0xEF, 0xBB, 0xBF];
    assert once + [] == once;
    Utf8MarkStripped(once);
    Utf8MarkStripped([]);
    MatchingTargetOnlyStrips(once + once, Some("UTF-8"), env, mbConvert, iconv);
    MatchingTargetOnlyStrips(once, Some("UTF-8"), env, mbConvert, iconv);
  }

  /** Decoding again is harmless once the output carries no mark and is
      already in the target encoding: the second call returns it unchanged. */
  lemma RedecodeUnmarkedUtf8(input: seq<Byte>, target: string, env: Environment,
                             mbConvert: MbConverter, iconv: IconvConverter)
    requires StrToUpper(target) == "UTF-8"
    requires SameIgnoringCase(DetectAndStrip(input).encoding, target)
    requires forall b :: !StartsWith(DetectAndStrip(input).remainder, Signature(b))
    ensures Decode(input, Some(target), env, mbConvert, iconv).Success?
    ensures var out := Decode(input, Some(target), env, mbConvert, iconv).value;
            Decode(out, Some(target), env, mbConvert, iconv) == Success(out)
  {
    UnmarkedUtf8Unchanged(DetectAndStrip(input).remainder, target, env, mbConvert, iconv);
  }

  /** The mbstring path reports no failure: with function overloading on,
      `decode` always returns output. */
  lemma MbstringPathNeverFails(input: seq<Byte>, targetEncoding: Option<string>, ini: Option<string>,
                               mbConvert: MbConverter, iconv: IconvConverter)
    ensures Decode(input, targetEncoding, Environment(ini, true), mbConvert, iconv).Success?
  {
  }

  /** The empty input decodes to the empty output without error whenever
      the resolved target is UTF-8 ignoring case. */
  lemma EmptyInputUtf8Target(targetEncoding: Option<string>, env: Environment,
                             mbConvert: MbConverter, iconv: IconvConverter)
    requires SameIgnoringCase("UTF-8", ResolveTarget(targetEncoding, env.defaultEncoding))
    ensures Decode([], targetEncoding, env, mbConvert, iconv) == Success([])
  {
    ShortInputKept([]);
  }

  /** The case-insensitive short-circuit: asking for a target or for its
      upper-cased form takes the same branch of `decode`, and when no
      conversion is needed both give the same output. */
  lemma UpperCasedTargetSameBranch(input: seq<Byte>, target: string, env: Environment,
                                   mbConvert: MbConverter, iconv: IconvConverter)
    ensures var e := DetectAndStrip(input).encoding;
            NeedsConversion(e, StrToUpper(target)) == NeedsConversion(e, target)
    ensures !NeedsConversion(DetectAndStrip(input).encoding, target) ==>
      Decode(input, Some(StrToUpper(target)), env, mbConvert, iconv) ==
      Decode(input, Some(target), env, mbConvert, iconv)
  {
    StrToUpperIdempotent(target);
  }

  /** Unmarked input with the lower-case target `utf-8` is returned unchanged:
      the two names agree letter by letter after upper-casing. */
  lemma LowerCaseUtf8TargetUnchanged(input: seq<Byte>, env: Environment,
                                     mbConvert: MbConverter, iconv: IconvConverter)
    requires forall b :: !StartsWith(input, Signature(b))
    ensures Decode(input, Some("utf-8"), env, mbConvert, iconv) == Success(input)
  {
    SameIgnoringCaseIsPointwise("UTF-8", "utf-8");
    UnmarkedInputKept(input);
  }

  /** "hi" behind a UTF-8 mark, no target given and none configured:
      the mark is dropped and nothing is converted. */
  lemma Utf8MarkedHello(env: Environment, mbConvert: MbConverter, iconv: IconvConverter)
    requires env.defaultEncoding.None?
    ensures Decode([0xEF, 0xBB, 0xBF, 0x68, 0x69], None, env, mbConvert, iconv) == Success([0x68, 0x69])
  {
    UpperStringsAreFixed("UTF-8");
    var input: seq<Byte> := [0xEF, 0xBB, 0xBF, 0x68, 0x69];
    assert input == [0xEF, 0xBB, 0xBF] + [0x68, 0x69];
    Utf8MarkStripped([0x68, 0x69]);
    assert ResolveTarget(None, env.defaultEncoding) == "UTF-8";
    MatchingTargetOnlyStrips(input, None, env, mbConvert, iconv);
  }

  /** "hi" behind a UTF-16BE mark with the default target: iconv is asked to
      convert the four bytes after the mark from UTF-16BE to UTF-8; its
      output is returned, or, when it fails, the conversion error. */
  lemma Utf16BeMarkedHello(mbConvert: MbConverter, iconv: IconvConverter)
    ensures var r := Decode([0xFE, 0xFF, 0x00, 0x68, 0x00, 0x69], None, Environment(None, false), mbConvert, iconv);
            match iconv("UTF-16BE", "UTF-8", [0x00, 0x68, 0x00, 0x69])
            case Some(out) => r == Success(out)
            case None => r == Failure(EncodingException("Input string could not be converted."))
  {
    var input: seq<Byte> := [0xFE, 0xFF, 0x00, 0x68, 0x00, 0x69];
    assert input == [0xFE, 0xFF] + [0x00, 0x68, 0x00, 0x69];
    Utf16MarksStripped([0x00, 0x68, 0x00, 0x69]);
    UpperStringsAreFixed("UTF-8");
    UpperStringsAreFixed("UTF-16BE");
    assert "UTF-16BE"[4] != "UTF-8"[4];
    assert NeedsConversion("UTF-16BE", "UTF-8");
    assert ResolveTarget(None, None) == "UTF-8";
    assert DetectAndStrip(input) == Detection("UTF-16BE", [0x00, 0x68, 0x00, 0x69]);
  }

  /** "Hello" without a mark and an explicit `UTF-8` target: byte for byte
      the input. */
  lemma UnmarkedHelloUnchanged(env: Environment, mbConvert: MbConverter, iconv: IconvConverter)
    ensures Decode([0x48, 0x65, 0x6C, 0x6C, 0x6F], Some("UTF-8"), env, mbConvert, iconv)
            == Success([0x48, 0x65, 0x6C, 0x6C, 0x6F])
  {
    UpperStringsAreFixed("UTF-8");
    var input: seq<Byte> := [0x48, 0x65, 0x6C, 0x6C, 0x6F];
    forall b ensures !StartsWith(input, Signature(b)) {
      assert input[0] == 0x48;
    }
  }
}
