/** Object names of the filedriver: an extent id is printed as the container id, a dot and the
    extent's index in eight hexadecimal digits, and parsed back from the right. */
module ExtentName {
  import opened Wrappers
  import opened Values

  datatype ExtentId = ExtentId(container: string, offset: U32)

  const SUFFIX_SIZE: nat := 8
  const SEPARATOR: char := '.'

  // ---------- printing ----------

  function HexDigit(d: nat): char
    requires d < 16
  {
    if d < 10 then ('0' as int + d) as char else ('a' as int + d - 10) as char
  }

  /** The digits `std::hex` prints: no leading zeros. */
  function ShortestHex(n: nat): string
  {
    if n < 16 then [HexDigit(n)] else ShortestHex(n / 16) + [HexDigit(n % 16)]
  }

  /** `std::setw` with the fill character '0'. */
  function PadLeft(s: string, width: nat): string
  {
    if |s| >= width then s else seq(width - |s|, _ => '0') + s
  }

  function Print(e: ExtentId): string
  {
    e.container + [SEPARATOR] + PadLeft(ShortestHex(e.offset), SUFFIX_SIZE)
  }

  // ---------- parsing ----------

  predicate IsHexDigit(c: char)
  {
    '0' <= c <= '9' || 'a' <= c <= 'f' || 'A' <= c <= 'F'
  }

  function DigitValue(c: char): (d: nat)
    ensures d < 16
  {
    if '0' <= c <= '9' then c as int - '0' as int
    else if 'A' <= c <= 'F' then c as int - 'A' as int + 10
    else if 'a' <= c <= 'f' then c as int - 'a' as int + 10
    else 0
  }

  function HexValue(s: string): nat
  {
    if s == [] then 0 else 16 * HexValue(s[..|s| - 1]) + DigitValue(s[|s| - 1])
  }

  predicate IsSpace(c: char)
  {
    c == ' ' || '\t' <= c <= '\r'
  }

  function SkipSpace(s: string): string
  {
    if s != [] && IsSpace(s[0]) then SkipSpace(s[1..]) else s
  }

  function LeadingHexDigits(s: string): (r: string)
    ensures forall c <- r :: IsHexDigit(c)
    ensures |r| <= |s|
  {
    if s != [] && IsHexDigit(s[0]) then [s[0]] + LeadingHexDigits(s[1..]) else []
  }

  function SkipSign(s: string): string
  {
    if s != [] && (s[0] == '-' || s[0] == '+') then s[1..] else s
  }

  function SkipPrefix(s: string): string
  {
    if |s| >= 2 && s[0] == '0' && (s[1] == 'x' || s[1] == 'X') then s[2..] else s
  }

  /** Unsigned negation in 32 bits. */
  function Negated(v: nat): (r: U32)
    requires v <= TWO_32
    ensures r == if v == 0 then 0 else TWO_32 - v
  {
    (TWO_32 - v) % TWO_32
  }

  /** What `stream >> std::hex >> off` leaves in an unsigned 32-bit `off` when the stream holds at most
      eight characters: white space is skipped, a sign and an `0x` prefix are accepted, digits are read up to
      the first other character, and a stream without digits leaves 0. */
  function ExtractHex(s: string): U32
    requires |s| <= SUFFIX_SIZE
  {
    var unspaced := SkipSpace(s);
    SkipSpaceShortens(s);
    var digits := LeadingHexDigits(SkipPrefix(SkipSign(unspaced)));
    HexValueBounded(digits);
    PowersOfSixteen(|digits|);
    if unspaced != [] && unspaced[0] == '-' then Negated(HexValue(digits)) else HexValue(digits)
  }

  /** The parsing constructor; `None` stands for the NotAnExtentId exception. */
  function ParseName(s: string): Option<ExtentId>
  {
    if |s| < 1 + SUFFIX_SIZE then None
    else
      var split := |s| - SUFFIX_SIZE - 1;
      if s[split] != SEPARATOR then None
      else Some(ExtentId(s[..split], ExtractHex(s[split + 1..])))
  }

  // ---------- arithmetic of digits ----------

  function Pow16(k: nat): nat
  {
    if k == 0 then 1 else 16 * Pow16(k - 1)
  }

  lemma PowersOfSixteen(k: nat)
    requires k <= SUFFIX_SIZE
    ensures 1 <= Pow16(k) <= 0x1_0000_0000
    ensures k == SUFFIX_SIZE ==> Pow16(k) == 0x1_0000_0000
  {
    assert Pow16(1) == 16;
    assert Pow16(2) == 256;
    assert Pow16(3) == 4096;
    assert Pow16(4) == 65536;
    assert Pow16(5) == 1048576;
    assert Pow16(6) == 16777216;
    assert Pow16(7) == 268435456;
    assert Pow16(8) == 4294967296;
  }

  lemma SkipSpaceShortens(s: string)
    ensures |SkipSpace(s)| <= |s|
  {
  }

  lemma HexValueBounded(s: string)
    ensures HexValue(s) < Pow16(|s|)
  {
  }

  predicate IsPrintedDigit(c: char)
  {
    '0' <= c <= '9' || 'a' <= c <= 'f'
  }

  /** The `k` lowest hexadecimal digits of `n`. */
  function FixedHex(n: nat, k: nat): (s: string)
    ensures |s| == k
    ensures forall c <- s :: IsPrintedDigit(c)
  {
    if k == 0 then "" else FixedHex(n / 16, k - 1) + [HexDigit(n % 16)]
  }

  lemma {:induction false} FixedHexOfZero(k: nat)
    ensures FixedHex(0, k) == seq(k, _ => '0')
  {
    if k > 0 {
      FixedHexOfZero(k - 1);
    }
  }

  lemma {:induction false} PaddingIsFixedWidth(n: nat, k: nat)
    requires 0 < k
    requires n < Pow16(k)
    ensures PadLeft(ShortestHex(n), k) == FixedHex(n, k)
  {
    if n < 16 {
      FixedHexOfZero(k - 1);
    } else if k > 1 {
      PaddingIsFixedWidth(n / 16, k - 1);
    }
  }

  lemma {:induction false} FixedHexValue(n: nat, k: nat)
    requires n < Pow16(k)
    ensures HexValue(FixedHex(n, k)) == n
  {
    if k > 0 {
      FixedHexValue(n / 16, k - 1);
      var s := FixedHex(n, k);
      assert s[..k - 1] == FixedHex(n / 16, k - 1);
    }
  }

  lemma {:induction false} FixedHexOfValue(s: string)
    requires forall c <- s :: IsPrintedDigit(c)
    ensures FixedHex(HexValue(s), |s|) == s
  {
    if s != [] {
      var last := s[|s| - 1];
      FixedHexOfValue(s[..|s| - 1]);
      assert IsPrintedDigit(last);
      assert HexDigit(DigitValue(last)) == last;
      assert HexValue(s) / 16 == HexValue(s[..|s| - 1]);
      assert s == s[..|s| - 1] + [last];
    }
  }

  lemma {:induction false} AllDigitsAreLeading(s: string)
    requires forall c <- s :: IsPrintedDigit(c)
    ensures LeadingHexDigits(s) == s
  {
    if s != [] {
      assert IsPrintedDigit(s[0]);
      AllDigitsAreLeading(s[1..]);
    }
  }

  lemma NothingToSkip(s: string)
    requires forall c <- s :: IsPrintedDigit(c)
    ensures SkipSpace(s) == s && SkipSign(s) == s && SkipPrefix(s) == s
    ensures s == [] || s[0] != '-'
  {
    assert s != [] ==> IsPrintedDigit(s[0]);
    assert |s| >= 2 ==> IsPrintedDigit(s[1]);
  }

  lemma PrintedDigitsAreExtracted(s: string)
    requires |s| <= SUFFIX_SIZE
    requires forall c <- s :: IsPrintedDigit(c)
    ensures ExtractHex(s) == HexValue(s)
  {
    AllDigitsAreLeading(s);
    NothingToSkip(s);
    hide LeadingHexDigits, HexValue, SkipSpace, SkipSign, SkipPrefix, IsPrintedDigit, IsHexDigit;
    assert ExtractHex(s) == HexValue(LeadingHexDigits(SkipPrefix(SkipSign(SkipSpace(s)))));
  }

  // ---------- the codec's laws ----------

  lemma PrintShape(e: ExtentId)
    ensures Print(e) == e.container + [SEPARATOR] + FixedHex(e.offset, SUFFIX_SIZE)
    ensures |Print(e)| == |e.container| + 1 + SUFFIX_SIZE
  {
    PowersOfSixteen(SUFFIX_SIZE);
    PaddingIsFixedWidth(e.offset, SUFFIX_SIZE);
  }

  /** Printing then parsing gives back the id, for every container id (dots included) and every offset. */
  lemma ParseOfPrint(e: ExtentId)
    ensures ParseName(Print(e)) == Some(e)
  {
    PrintShape(e);
    PowersOfSixteen(SUFFIX_SIZE);
    var s := Print(e);
    assert s[..|e.container|] == e.container;
    assert s[|e.container| + 1..] == FixedHex(e.offset, SUFFIX_SIZE);
    FixedHexValue(e.offset, SUFFIX_SIZE);
    PrintedDigitsAreExtracted(s[|e.container| + 1..]);
  }

  lemma PrintInjective(a: ExtentId, b: ExtentId)
    requires Print(a) == Print(b)
    ensures a == b
  {
    ParseOfPrint(a);
    ParseOfPrint(b);
  }

  /** A name the printer can have produced. */
  predicate Canonical(s: string)
  {
    && |s| >= 1 + SUFFIX_SIZE
    && s[|s| - SUFFIX_SIZE - 1] == SEPARATOR
    && forall c <- s[|s| - SUFFIX_SIZE..] :: IsPrintedDigit(c)
  }

  /** Parsing then printing gives back the string exactly for the canonical names. */
  lemma PrintOfParse(s: string)
    ensures (ParseName(s).Some? && Print(ParseName(s).value) == s) <==> Canonical(s)
  {
    if ParseName(s).Some? {
      var e := ParseName(s).value;
      var suffix := s[|s| - SUFFIX_SIZE..];
      PrintShape(e);
      assert s == e.container + [SEPARATOR] + suffix;
      if Canonical(s) {
        PrintedDigitsAreExtracted(suffix);
        FixedHexOfValue(suffix);
      }
    }
  }

  /** The parser does not reject a suffix without digits: it reads it as extent 0, and that is not the name that
      extent 0 is printed as. */
  lemma GarbageSuffixIsExtentZero(id: string, suffix: string)
    requires |suffix| == SUFFIX_SIZE && SkipSpace(suffix) != []
    requires LeadingHexDigits(SkipPrefix(SkipSign(SkipSpace(suffix)))) == []
    ensures var name := id + [SEPARATOR] + suffix;
            ParseName(name) == Some(ExtentId(id, 0)) && Print(ExtentId(id, 0)) != name
  {
    var name := id + [SEPARATOR] + suffix;
    assert name[..|id|] == id && name[|id| + 1..] == suffix;
    PrintShape(ExtentId(id, 0));
    assert Print(ExtentId(id, 0))[|id| + 1..] == FixedHex(0, SUFFIX_SIZE);
    NothingToSkip(FixedHex(0, SUFFIX_SIZE));
  }

  /** The hexadecimal digit number `j` of `n`, counted from the right. */
  function Nibble(n: nat, j: nat): (d: nat)
    ensures d < 16
  {
    if j == 0 then n % 16 else Nibble(n / 16, j - 1)
  }

  lemma {:induction false} FixedHexAt(n: nat, k: nat, i: nat)
    requires i < k
    ensures FixedHex(n, k)[i] == "0123456789abcdef"[Nibble(n, k - 1 - i)]
  {
    if i < k - 1 {
      FixedHexAt(n / 16, k - 1, i);
    }
  }

  /** A name is the container id, a dot and the eight digits of the offset in lower case, the highest first. */
  lemma PrintedDigits(e: ExtentId, i: nat)
    requires i < 8
    ensures var name := Print(e);
            && |name| == |e.container| + 9 && name[..|e.container|] == e.container && name[|e.container|] == '.'
            && name[|e.container| + 1 + i] == "0123456789abcdef"[Nibble(e.offset, 7 - i)]
  {
    PrintShape(e);
    FixedHexAt(e.offset, 8, i);
    hide FixedHex, Print, Nibble;
  }

  lemma SuffixParsed(id: string, suffix: string)
    requires |suffix| == 8
    ensures ParseName(id + "." + suffix) == Some(ExtentId(id, ExtractHex(suffix)))
  {
    var name := id + "." + suffix;
    assert name[..|id|] == id && name[|id| + 1..] == suffix;
    hide ExtractHex;
  }

  /** What the stream makes of a sign, a space and a prefix before printed digits. */
  lemma OddSuffixes(d: string)
    requires |d| == 6 && forall c <- d :: IsPrintedDigit(c)
    ensures ExtractHex("0x" + d) == HexValue(d) && ExtractHex(" +" + d) == HexValue(d)
    ensures ExtractHex(" -" + d) == if HexValue(d) == 0 then 0 else TWO_32 - HexValue(d)
  {
    AllDigitsAreLeading(d);
    Skips(d);
    hide *;
    Extracted("0x" + d, "0x" + d, d);
    Extracted(" +" + d, "+" + d, d);
    Extracted(" -" + d, "-" + d, d);
  }

  lemma Extracted(s: string, unspaced: string, d: string)
    requires |s| <= SUFFIX_SIZE && |d| <= 7 && unspaced == SkipSpace(s) && unspaced != []
    requires LeadingHexDigits(SkipPrefix(SkipSign(unspaced))) == d
    ensures ExtractHex(s)
         == if unspaced[0] != '-' || HexValue(d) == 0 then HexValue(d) else TWO_32 - HexValue(d)
  {
    HexValueBounded(d);
    PowersOfSixteen(|d|);
    hide HexValue, LeadingHexDigits, SkipPrefix, SkipSign, SkipSpace, Pow16, Negated;
  }

  lemma Skips(d: string)
    requires |d| == 6 && forall c <- d :: IsPrintedDigit(c)
    ensures SkipSpace("0x" + d) == "0x" + d && SkipPrefix(SkipSign(SkipSpace("0x" + d))) == d
    ensures SkipPrefix(SkipSign(SkipSpace(" +" + d))) == d && SkipSpace(" +" + d) == "+" + d
    ensures SkipPrefix(SkipSign(SkipSpace(" -" + d))) == d && SkipSpace(" -" + d) == "-" + d
  {
    NothingToSkip(d);
    assert ("0x" + d)[2..] == d && (" +" + d)[1..] == "+" + d && (" -" + d)[1..] == "-" + d;
    assert ("+" + d)[1..] == d && ("-" + d)[1..] == d;
  }

  /** One character more than a printed name is never accepted: the separator is looked for one place too
      far right. */
  lemma ExtendedNameRejected(e: ExtentId, c: char)
    ensures ParseName(Print(e) + [c]) == None
  {
    PrintShape(e);
    var s := Print(e) + [c];
    assert s[|s| - SUFFIX_SIZE - 1] == FixedHex(e.offset, SUFFIX_SIZE)[0];
    assert IsPrintedDigit(FixedHex(e.offset, SUFFIX_SIZE)[0]);
  }

  /** Two characters less are rejected except when the container id has a dot two places before its end. */
  lemma TruncatedNameAccepted(e: ExtentId)
    ensures ParseName(Print(e)[..|Print(e)| - 2]).Some?
       <==> |e.container| >= 2 && e.container[|e.container| - 2] == SEPARATOR
  {
    PrintShape(e);
  }

  // ---------- names of one container ----------

  function Name(id: string, i: U32): string
  {
    Print(ExtentId(id, i))
  }

  /** The name is one that the container with this id prints. */
  predicate Owns(id: string, name: string)
  {
    var parsed := ParseName(name);
    parsed.Some? && parsed.value.container == id && Print(parsed.value) == name
  }

  lemma NameIsOwned(id: string, i: U32)
    ensures Owns(id, Name(id, i))
    ensures forall other: string :: other != id ==> !Owns(other, Name(id, i))
  {
    ParseOfPrint(ExtentId(id, i));
  }

  lemma OwnedIsNamed(id: string, name: string)
    requires Owns(id, name)
    ensures ParseName(name).Some? && name == Name(id, ParseName(name).value.offset)
  {
  }

  lemma NamesDiffer(id: string, i: U32, other: string, j: U32)
    ensures Name(id, i) == Name(other, j) <==> id == other && i == j
  {
    if Name(id, i) == Name(other, j) {
      PrintInjective(ExtentId(id, i), ExtentId(other, j));
    }
  }
}
