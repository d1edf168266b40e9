/** The formatted names that mobitool builds with `snprintf`: decimal
    numbers padded to five digits (`%05zu`), output truncated to the buffer,
    and the length check of `create_path` (mobiconvert/mobitool.c). */
module Names {
  import opened Common

  /** The SUCCESS and ERROR codes of the tool. */
  datatype ToolRet = ToolSuccess | ToolError

  /** FILENAME_MAX of the Windows C runtime the tool is built against:
      the size of every name buffer. */
  const FILENAME_MAX: nat := 260

  function DigitChar(d: nat): (c: char)
    requires d < 10
    ensures '0' <= c <= '9' && c as int - '0' as int == d
  {
    ('0' as int + d) as char
  }

  predicate IsDigits(s: string)
  {
    forall i :: 0 <= i < |s| ==> '0' <= s[i] <= '9'
  }

  /** The decimal digits of `n`, without leading zeroes. */
  function Digits(n: nat): (s: string)
    ensures |s| >= 1 && IsDigits(s)
    decreases n
  {
    if n < 10 then [DigitChar(n)] else Digits(n / 10) + [DigitChar(n % 10)]
  }

  /** `s` with zeroes in front up to `width` characters. */
  function ZeroPad(s: string, width: nat): (r: string)
    ensures |r| == Max(|s|, width)
    ensures IsDigits(s) ==> IsDigits(r)
    decreases width - |s|
  {
    if |s| >= width then s else ZeroPad(['0'] + s, width)
  }

  /** `%05zu`: the decimal digits of `n`, at least five of them. */
  function Pad5(n: nat): (s: string)
    ensures |s| >= 5 && IsDigits(s)
  {
    ZeroPad(Digits(n), 5)
  }

  /** The number a string of decimal digits denotes, leading zeroes allowed. */
  function DecimalValue(s: string): nat
    requires IsDigits(s)
  {
    if s == [] then 0 else DecimalValue(s[..|s| - 1]) * 10 + (s[|s| - 1] as int - '0' as int)
  }

  lemma {:induction false} DigitsValue(n: nat)
    ensures DecimalValue(Digits(n)) == n
    decreases n
  {
    if n >= 10 {
      DigitsValue(n / 10);
      var s := Digits(n);
      assert s[..|s| - 1] == Digits(n / 10);
    }
  }

  /** A leading zero does not change the value. */
  lemma {:induction false} LeadingZeroValue(s: string)
    requires IsDigits(s)
    ensures DecimalValue(['0'] + s) == DecimalValue(s)
    decreases |s|
  {
    if s != [] {
      var t := ['0'] + s;
      assert t[..|t| - 1] == ['0'] + s[..|s| - 1];
      LeadingZeroValue(s[..|s| - 1]);
    } else {
      assert (['0'] + s)[..0] == [];
    }
  }

  lemma {:induction false} ZeroPadValue(s: string, width: nat)
    requires IsDigits(s)
    ensures DecimalValue(ZeroPad(s, width)) == DecimalValue(s)
    decreases width - |s|
  {
    if |s| < width {
      LeadingZeroValue(s);
      ZeroPadValue(['0'] + s, width);
    }
  }

  /** The padded digits read back as the number: `%05zu` loses nothing. */
  lemma Pad5Value(n: nat)
    ensures DecimalValue(Pad5(n)) == n
  {
    ZeroPadValue(Digits(n), 5);
    DigitsValue(n);
  }

  /** Numbers below 100000 take exactly five characters. */
  lemma {:induction false} Pad5Width(n: nat)
    requires n < 100000
    ensures |Pad5(n)| == 5
  {
    DigitsBelow(n, 5);
  }

  function Pow10(k: nat): (r: nat)
    ensures r >= 1
  {
    if k == 0 then 1 else 10 * Pow10(k - 1)
  }

  /** A number below 10^k has at most k digits. */
  lemma {:induction false} DigitsBelow(n: nat, k: nat)
    requires 1 <= k && n < Pow10(k)
    ensures |Digits(n)| <= k
    decreases k
  {
    if n >= 10 {
      assert k >= 2;
      DigitsBelow(n / 10, k - 1);
    }
  }

  /** What `snprintf` leaves in a buffer of `size` bytes for the output `s`:
      at most `size - 1` characters before the terminator. */
  function Truncated(s: string, size: nat): (r: string)
    requires size >= 1
    ensures |r| == Min(|s|, size - 1) && r == s[..|r|]
  {
    if |s| < size then s else s[..size - 1]
  }

  /** `create_path`: the name `dir + basename + suffix`, where `dir` is the
      output directory or the input's directory, refused when it does not
      fit the buffer of `bufLen` bytes with its terminator. */
  function CreatePath(dir: string, basename: string, suffix: string, bufLen: nat): (r: Option<string>)
    ensures r.Some? <==> |dir| + |basename| + |suffix| < bufLen
    ensures r.Some? ==> r.value == dir + basename + suffix
  {
    var full := dir + basename + suffix;
    if |full| >= bufLen then None else Some(full)
  }

  /** A name that `create_path` accepts is the whole string, never a truncated one. */
  lemma CreatePathWhole(dir: string, basename: string, suffix: string, bufLen: nat)
    requires bufLen >= 1 && CreatePath(dir, basename, suffix, bufLen).Some?
    ensures CreatePath(dir, basename, suffix, bufLen).value == Truncated(dir + basename + suffix, bufLen)
    ensures |CreatePath(dir, basename, suffix, bufLen).value| < bufLen
  {
  }

  /** `prefix + %05zu + "." + ext`, the pattern of every numbered part name. */
  function NumberedName(prefix: string, n: nat, ext: string): (r: string)
    ensures |r| == |prefix| + |Pad5(n)| + 1 + |ext|
  {
    prefix + Pad5(n) + "." + ext
  }

  /** Two numbered names with one prefix are equal only for the same
      number and extension: the digits end at the first '.'. */
  lemma NumberedNameInjective(prefix: string, n1: nat, e1: string, n2: nat, e2: string)
    requires NumberedName(prefix, n1, e1) == NumberedName(prefix, n2, e2)
    ensures n1 == n2 && e1 == e2
  {
    var s := NumberedName(prefix, n1, e1);
    var p1, p2 := Pad5(n1), Pad5(n2);
    var L := |prefix|;
    if |p1| < |p2| {
      NameCharAt(prefix, p1, e1, L + |p1|);
      NameCharAt(prefix, p2, e2, L + |p1|);
      assert false;
    }
    if |p2| < |p1| {
      NameCharAt(prefix, p1, e1, L + |p2|);
      NameCharAt(prefix, p2, e2, L + |p2|);
      assert false;
    }
    assert p1 == s[L..L + |p1|];
    assert p2 == s[L..L + |p2|];
    Pad5Value(n1);
    Pad5Value(n2);
    assert e1 == s[L + |p1| + 1..];
    assert e2 == s[L + |p2| + 1..];
  }

  /** The character at `j` of a numbered name: a digit inside the number,
      the '.' right after it. */
  lemma NameCharAt(prefix: string, digits: string, ext: string, j: int)
    ensures |prefix| <= j < |prefix| + |digits| ==> (prefix + digits + "." + ext)[j] == digits[j - |prefix|]
    ensures j == |prefix| + |digits| ==> (prefix + digits + "." + ext)[j] == '.'
  {
  }

  /** The bytes of an ASCII string. */
  function Ascii(s: string): (b: seq<u8>)
    requires forall i :: 0 <= i < |s| ==> s[i] as int < 0x80
    ensures |b| == |s| && forall i :: 0 <= i < |s| ==> b[i] == s[i] as int
  {
    seq(|s|, i requires 0 <= i < |s| => s[i] as int as u8)
  }
}
