/** Certificate fingerprints: the canonical form of a digest, and the operator's list of them. */
module CertIdentity {
  import opened Wrappers
  import opened Text

  type Byte = b: int | 0 <= b < 256

  /** A SHA-256 digest. */
  type Digest = d: seq<Byte> | |d| == 32 witness seq(32, _ => 0)

  function HexDigit(n: int): char
    requires 0 <= n < 16
  {
    if n < 10 then ('0' as int + n) as char else ('A' as int + n - 10) as char
  }

  predicate IsHex(c: char) {
    '0' <= c <= '9' || 'A' <= c <= 'F' || 'a' <= c <= 'f'
  }

  function HexValue(c: char): int
    requires '0' <= c <= '9' || 'A' <= c <= 'F'
  {
    if c <= '9' then c as int - '0' as int else c as int - 'A' as int + 10
  }

  function Hex2(b: Byte): string {
    [HexDigit(b / 16), HexDigit(b % 16)]
  }

  /** The canonical form: upper-case hex pairs joined by colons. */
  function Format(bytes: seq<Byte>): string {
    Join(seq(|bytes|, i requires 0 <= i < |bytes| => Hex2(bytes[i])), ':')
  }

  function Upper(s: string): (u: string)
    ensures |u| == |s|
  {
    seq(|s|, i requires 0 <= i < |s| => if 'a' <= s[i] <= 'z' then (s[i] as int - 32) as char else s[i])
  }

  /** Thirty-two pairs of hex digits with colons between them. */
  predicate IsFingerprint(s: string) {
    |s| == 95 && forall i | 0 <= i < 95 :: if i % 3 == 2 then s[i] == ':' else IsHex(s[i])
  }

  datatype FormatError = NotAFingerprint(raw: string)

  function Normalize(raw: string): Result<string, FormatError> {
    var candidate := Upper(Strip(raw));
    if IsFingerprint(candidate) then Ok(candidate) else Err(NotAFingerprint(raw))
  }

  // ----- what the canonical form is -----

  lemma {:induction false} FormatDigits(bytes: seq<Byte>, i: nat)
    requires i < |bytes|
    ensures |Format(bytes)| == 3 * |bytes| - 1
    ensures Format(bytes)[3 * i] == HexDigit(bytes[i] / 16)
    ensures Format(bytes)[3 * i + 1] == HexDigit(bytes[i] % 16)
    ensures i + 1 < |bytes| ==> Format(bytes)[3 * i + 2] == ':'
    decreases |bytes|
  {
    var pairs := seq(|bytes|, k requires 0 <= k < |bytes| => Hex2(bytes[k]));
    if |bytes| > 1 {
      var rest := bytes[1..];
      assert pairs[1..] == seq(|rest|, k requires 0 <= k < |rest| => Hex2(rest[k]));
      assert Format(bytes) == Hex2(bytes[0]) + ":" + Format(rest);
      FormatDigits(rest, if i > 0 then i - 1 else 0);
    }
  }

  lemma HexDigitIs(n: int)
    requires 0 <= n < 16
    ensures HexDigit(n) == "0123456789ABCDEF"[n]
  {}

  /** Where each byte's two digits and the colons stand. */
  lemma FormatAt(bytes: seq<Byte>, i: nat)
    requires i < |bytes|
    ensures |Format(bytes)| == 3 * |bytes| - 1
    ensures Format(bytes)[3 * i] == "0123456789ABCDEF"[bytes[i] / 16]
    ensures Format(bytes)[3 * i + 1] == "0123456789ABCDEF"[bytes[i] % 16]
    ensures i + 1 < |bytes| ==> Format(bytes)[3 * i + 2] == ':'
  {
    FormatDigits(bytes, i);
    HexDigitIs(bytes[i] / 16);
    HexDigitIs(bytes[i] % 16);
  }

  lemma FormatShape(d: Digest)
    ensures IsFingerprint(Format(d)) && Upper(Format(d)) == Format(d)
    ensures Trimmed(Format(d)) && ',' !in Format(d) && Format(d) != ""
  {
    var s := Format(d);
    FormatDigits(d, 0);
    forall i | 0 <= i < 95
      ensures if i % 3 == 2 then s[i] == ':' else '0' <= s[i] <= '9' || 'A' <= s[i] <= 'F'
    {
      FormatDigits(d, i / 3);
      assert i == 3 * (i / 3) + i % 3;
    }
  }

  /** The digest a canonical form was printed from. */
  function DigestOf(s: string): Digest
    requires IsFingerprint(s) && Upper(s) == s
  {
    assert forall i | 0 <= i < 95 && i % 3 != 2 :: Upper(s)[i] == s[i];
    assert forall i | 0 <= i < 32 :: (3 * i) % 3 == 0 && (3 * i + 1) % 3 == 1;
    seq(32, i requires 0 <= i < 32 => 16 * HexValue(s[3 * i]) + HexValue(s[3 * i + 1]))
  }

  predicate IsUpperHex(c: char) {
    '0' <= c <= '9' || 'A' <= c <= 'F'
  }

  lemma DigitRoundTrip(c: char)
    requires IsUpperHex(c)
    ensures HexDigit(HexValue(c)) == c
  {}

  lemma ByteDigits(hi: int, lo: int)
    requires 0 <= hi < 16 && 0 <= lo < 16
    ensures (16 * hi + lo) / 16 == hi && (16 * hi + lo) % 16 == lo
  {}

  lemma CanonicalAt(s: string, i: nat)
    requires IsFingerprint(s) && Upper(s) == s && i < 95
    ensures if i % 3 == 2 then s[i] == ':' else IsUpperHex(s[i])
  {
    assert Upper(s)[i] == s[i];
  }

  /** The two digits of byte `k` are those the text has there. */
  lemma DigitsAt(s: string, k: nat)
    requires IsFingerprint(s) && Upper(s) == s && k < 32
    ensures HexDigit(DigestOf(s)[k] / 16) == s[3 * k] && HexDigit(DigestOf(s)[k] % 16) == s[3 * k + 1]
  {
    assert (3 * k) % 3 == 0 && (3 * k + 1) % 3 == 1;
    CanonicalAt(s, 3 * k);
    CanonicalAt(s, 3 * k + 1);
    DigitRoundTrip(s[3 * k]);
    DigitRoundTrip(s[3 * k + 1]);
    ByteDigits(HexValue(s[3 * k]), HexValue(s[3 * k + 1]));
  }

  lemma FormatDigestAt(s: string, i: nat)
    requires IsFingerprint(s) && Upper(s) == s && i < 95
    ensures |Format(DigestOf(s))| == 95 && Format(DigestOf(s))[i] == s[i]
  {
    var k := i / 3;
    FormatDigits(DigestOf(s), k);
    DigitsAt(s, k);
    CanonicalAt(s, i);
    assert i == 3 * k + i % 3;
  }

  lemma FormatDigestOf(s: string)
    requires IsFingerprint(s) && Upper(s) == s
    ensures Format(DigestOf(s)) == s
  {
    var d := DigestOf(s);
    FormatDigits(d, 0);
    forall i | 0 <= i < 95 ensures Format(d)[i] == s[i] {
      FormatDigestAt(s, i);
    }
  }

  /** Two canonical forms are equal exactly when the digests are. */
  lemma FormatInjective(d: Digest, e: Digest)
    ensures Format(d) == Format(e) <==> d == e
  {
    if Format(d) == Format(e) {
      forall i | 0 <= i < 32 ensures d[i] == e[i] {
        FormatDigits(d, i);
        FormatDigits(e, i);
      }
    }
  }

  lemma UpperTwice(s: string)
    ensures Upper(Upper(s)) == Upper(s)
  {}

  /** The text is the canonical form up to lower-case letters. */
  predicate Spells(text: string, canonical: string) {
    && |text| == |canonical|
    && forall i | 0 <= i < |text| ::
      text[i] == canonical[i] || ('A' <= canonical[i] <= 'F' && text[i] as int == canonical[i] as int + 32)
  }

  lemma SpellsExactly(text: string, d: Digest)
    ensures Spells(text, Format(d)) <==> Upper(text) == Format(d)
  {
    var s := Format(d);
    FormatShape(d);
    if Spells(text, s) {
      forall i | 0 <= i < |text| ensures Upper(text)[i] == s[i] {
        assert Upper(s)[i] == s[i];
      }
    }
    if Upper(text) == s {
      forall i | 0 <= i < |text|
        ensures text[i] == s[i] || ('A' <= s[i] <= 'F' && text[i] as int == s[i] as int + 32)
      {
        assert Upper(text)[i] == s[i] && (s[i] == ':' || IsHex(s[i]));
      }
    }
  }

  /** A value is accepted exactly when, blanks and letter case aside, it is the canonical form
      of some digest; the result is that form. */
  lemma NormalizeAcceptsExactly(raw: string)
    ensures Normalize(raw).Ok? <==> exists d: Digest :: Spells(Strip(raw), Format(d))
    ensures forall d: Digest | Spells(Strip(raw), Format(d)) :: Normalize(raw) == Ok(Format(d))
  {
    var c := Upper(Strip(raw));
    if IsFingerprint(c) {
      UpperTwice(Strip(raw));
      FormatDigestOf(c);
      SpellsExactly(Strip(raw), DigestOf(c));
    }
    forall d: Digest | Spells(Strip(raw), Format(d)) ensures Normalize(raw) == Ok(Format(d)) {
      SpellsExactly(Strip(raw), d);
      FormatShape(d);
    }
  }

  // ----- the operator's list -----

  /** The canonical forms a list denotes, or the first bad item's error. */
  function NormalizeParts(parts: seq<string>): Result<seq<string>, FormatError> {
    if parts == [] then Ok([])
    else match NormalizeParts(parts[..|parts| - 1])
      case Err(e) => Err(e)
      case Ok(rest) =>
        var part := Strip(parts[|parts| - 1]);
        if part == "" then Ok(rest)
        else match Normalize(part)
          case Err(e) => Err(e)
          case Ok(f) => Ok(rest + [f])
  }

  /** The configuration value a raw `fingerprint` setting becomes. */
  function ConfiguredFingerprints(raw: string): Result<string, FormatError> {
    match NormalizeParts(Split(raw, ','))
    case Err(e) => Err(e)
    case Ok(list) => Ok(Join(list, ','))
  }

  lemma {:induction false} NormalizePartsErrPersists(parts: seq<string>, i: nat)
    requires i <= |parts| && NormalizeParts(parts[..i]).Err?
    ensures NormalizeParts(parts) == NormalizeParts(parts[..i])
    decreases |parts|
  {
    if i == |parts| {
      assert parts[..i] == parts;
    } else {
      assert parts[..|parts| - 1][..i] == parts[..i];
      NormalizePartsErrPersists(parts[..|parts| - 1], i);
    }
  }

  /** A non-blank item that spells no digest. */
  ghost predicate SpellsNone(part: string) {
    Strip(part) != "" && forall d: Digest :: !Spells(Strip(part), Format(d))
  }

  ghost predicate SomeSpellsNone(parts: seq<string>) {
    exists i :: 0 <= i < |parts| && SpellsNone(parts[i])
  }

  /** The setting is refused exactly when some item is neither blank nor a digest in some spelling. */
  lemma {:induction false} SettingFailsExactly(parts: seq<string>)
    ensures NormalizeParts(parts).Err? <==> SomeSpellsNone(parts)
  {
    if parts != [] {
      var n := |parts| - 1;
      var init := parts[..n];
      SettingFailsExactly(init);
      PartFailsExactly(parts[n]);
      SomeNoneSnoc(parts);
    }
  }

  lemma SomeNoneSnoc(parts: seq<string>)
    requires parts != []
    ensures SomeSpellsNone(parts) <==> SomeSpellsNone(parts[..|parts| - 1]) || SpellsNone(parts[|parts| - 1])
  {
    var init := parts[..|parts| - 1];
    if i :| 0 <= i < |init| && SpellsNone(init[i]) {
      assert SpellsNone(parts[i]);
    }
    if i :| 0 <= i < |init| && SpellsNone(parts[i]) {
      assert SpellsNone(init[i]);
    }
  }

  lemma PartFailsExactly(part: string)
    ensures SpellsNone(part) <==> Strip(part) != "" && Normalize(Strip(part)).Err?
  {
    var l, r := StripResult(part);
    StripTrimmed(Strip(part));
    NormalizeAcceptsExactly(Strip(part));
  }

  method ParseFingerprintSetting(raw: string) returns (result: Result<string, FormatError>)
    ensures result == ConfiguredFingerprints(raw)
  {
    if raw == "" {
      assert Split("", ',')[..0] == [];
      assert NormalizeParts([""]) == Ok([]);
      return Ok("");
    }
    var parts := Split(raw, ',');
    var normalized: seq<string> := [];
    for i := 0 to |parts|
      invariant NormalizeParts(parts[..i]) == Ok(normalized)
    {
      assert parts[..i + 1][..i] == parts[..i];
      var part := Strip(parts[i]);
      if part == "" {
        continue;
      }
      match Normalize(part) {
        case Err(e) =>
          NormalizePartsErrPersists(parts, i + 1);
          return Err(e);
        case Ok(f) =>
          normalized := normalized + [f];
      }
    }
    assert parts[..|parts|] == parts;
    return Ok(Join(normalized, ','));
  }

  lemma {:induction false} ItemsOfClean(list: seq<string>)
    requires forall i | 0 <= i < |list| :: Trimmed(list[i]) && list[i] != ""
    ensures Items(list) == list
  {
    if list != [] {
      ItemsOfClean(list[..|list| - 1]);
      StripTrimmed(list[|list| - 1]);
      assert list == list[..|list| - 1] + [list[|list| - 1]];
    }
  }

  lemma {:induction false} NormalizedAreCanonical(parts: seq<string>)
    requires NormalizeParts(parts).Ok?
    ensures forall f | f in NormalizeParts(parts).value :: exists d: Digest :: f == Format(d)
  {
    if parts != [] {
      NormalizedAreCanonical(parts[..|parts| - 1]);
      NormalizeAcceptsExactly(Strip(parts[|parts| - 1]));
    }
  }

  /** Splitting the configured value again gives back exactly the normalised list. */
  lemma {:induction false} ResplitConfigured(raw: string)
    requires NormalizeParts(Split(raw, ',')).Ok?
    ensures var list := NormalizeParts(Split(raw, ',')).value;
      ConfiguredFingerprints(raw) == Ok(Join(list, ',')) && Items(Split(Join(list, ','), ',')) == list
  {
    var list := NormalizeParts(Split(raw, ',')).value;
    NormalizedAreCanonical(Split(raw, ','));
    forall i | 0 <= i < |list| ensures Trimmed(list[i]) && list[i] != "" && ',' !in list[i] {
      assert list[i] in list;
      var d: Digest :| list[i] == Format(d);
      FormatShape(d);
    }
    if list == [] {
      assert Split("", ',')[..0] == [];
      assert Items([""]) == [];
    } else {
      SplitJoin(list, ',');
      ItemsOfClean(list);
    }
  }

  /** One item as an operator may write it: blanks, or a digest in any letter case with
      blanks around it. */
  datatype Written = Blank(pad: string) | Print(left: string, text: string, right: string, digest: Digest)
  {
    predicate Valid() {
      match this
      case Blank(pad) => AllSpace(pad)
      case Print(l, text, r, d) => AllSpace(l) && AllSpace(r) && Spells(text, Format(d))
    }

    function Text(): string {
      match this
      case Blank(pad) => pad
      case Print(l, text, r, _) => l + text + r
    }
  }

  function WrittenTexts(items: seq<Written>): seq<string> {
    seq(|items|, i requires 0 <= i < |items| => items[i].Text())
  }

  function Digests(items: seq<Written>): seq<string> {
    if items == [] then []
    else
      var rest, last := Digests(items[..|items| - 1]), items[|items| - 1];
      if last.Blank? then rest else rest + [Format(last.digest)]
  }

  /** Any spelling of a digest is plain text: no comma, no blank at its ends. */
  lemma SpellingIsPlain(text: string, d: Digest)
    requires Spells(text, Format(d))
    ensures Trimmed(text) && text != "" && ',' !in text
  {
    FormatShape(d);
    forall i | 0 <= i < |text| ensures !IsSpace(text[i]) && text[i] != ',' {
      assert Format(d)[i] == ':' || IsHex(Format(d)[i]);
    }
  }

  lemma {:induction false} WrittenPartsNormalize(items: seq<Written>)
    requires forall i | 0 <= i < |items| :: items[i].Valid()
    ensures NormalizeParts(WrittenTexts(items)) == Ok(Digests(items))
  {
    if items != [] {
      var init, last := items[..|items| - 1], items[|items| - 1];
      WrittenPartsNormalize(init);
      assert WrittenTexts(items)[..|items| - 1] == WrittenTexts(init);
      match last
      case Blank(pad) =>
        StripPadded(pad, "", "");
        assert pad == pad + "" + "";
      case Print(l, text, r, d) =>
        SpellingIsPlain(text, d);
        StripPadded(l, text, r);
        StripTrimmed(text);
        NormalizeAcceptsExactly(text);
    }
  }

  lemma WrittenTextsPlain(items: seq<Written>)
    requires forall i | 0 <= i < |items| :: items[i].Valid()
    ensures forall i | 0 <= i < |items| :: ',' !in WrittenTexts(items)[i]
  {
    forall i | 0 <= i < |items| ensures ',' !in WrittenTexts(items)[i] {
      assert items[i].Valid();
      if items[i].Print? {
        SpellingIsPlain(items[i].text, items[i].digest);
      }
    }
  }

  /** However an operator lays out a list of digests, the configured value re-splits into
      exactly their canonical forms, in order. */
  lemma {:induction false} FingerprintListRoundTrip(items: seq<Written>)
    requires items != [] && forall i | 0 <= i < |items| :: items[i].Valid()
    ensures var configured := ConfiguredFingerprints(Join(WrittenTexts(items), ','));
      configured.Ok? && Items(Split(configured.value, ',')) == Digests(items)
  {
    var texts := WrittenTexts(items);
    WrittenTextsPlain(items);
    SplitJoin(texts, ',');
    WrittenPartsNormalize(items);
    ResplitConfigured(Join(texts, ','));
  }
}
