/** Chip names of libsensors: their textual form `prefix-bus-address`, its parser and its printer, and
    the matching of names with wildcards. */
module ChipNames {
  /** A prefix, or any. */
  datatype Prefix = AnyPrefix | Named(s: string)

  /** Bus type and number, and address; -1 stands for any. */
  datatype ChipName = ChipName(prefix: Prefix, busType: int, busNr: int, addr: int)

  const ANY := -1
  const I2C := 0
  const ISA := 1
  const PCI := 2
  const SPI := 3
  const VIRTUAL := 4
  const ACPI := 5
  const HID := 6

  /** `sensors_match_chip`. */
  predicate Match(a: ChipName, b: ChipName) {
    && (a.prefix.AnyPrefix? || b.prefix.AnyPrefix? || a.prefix == b.prefix)
    && (a.busType == ANY || b.busType == ANY || a.busType == b.busType)
    && (a.busNr == ANY || b.busNr == ANY || a.busNr == b.busNr)
    && (a.addr == b.addr || a.addr == ANY || b.addr == ANY)
  }

  predicate HasWildcards(c: ChipName) {
    c.prefix.AnyPrefix? || c.busType == ANY || c.busNr == ANY || c.addr == ANY
  }

  /** A name without wildcards. */
  predicate Definite(c: ChipName) {
    c.prefix.Named? && c.busType != -1 && c.busNr != -1 && c.addr != -1
  }

  /** The pattern covers the definite name: each of its parts is a wildcard or that of the name. */
  predicate Covers(p: ChipName, c: ChipName) {
    && (p.prefix == AnyPrefix || p.prefix == c.prefix)
    && p.busType in {-1, c.busType} && p.busNr in {-1, c.busNr} && p.addr in {-1, c.addr}
  }

  /** Two patterns match if and only if some definite name is covered by both. */
  lemma MatchExactly(a: ChipName, b: ChipName)
    ensures Match(a, b) <==> exists c :: Definite(c) && Covers(a, c) && Covers(b, c)
  {
    if Match(a, b) {
      var c := ChipName(
        if a.prefix.Named? then a.prefix else if b.prefix.Named? then b.prefix else Named(""),
        Either(a.busType, b.busType), Either(a.busNr, b.busNr), Either(a.addr, b.addr));
      assert Definite(c) && Covers(a, c) && Covers(b, c);
    }
  }

  function Either(x: int, y: int): int { if x != -1 then x else if y != -1 then y else 0 }

  lemma WildcardsExactly(c: ChipName)
    ensures HasWildcards(c) <==> !Definite(c)
  {
  }

  // ------------------------------------------------------------------ numbers

  const DIGITS := "0123456789abcdef"

  /** The digits of `n`, most significant first. */
  function Digits(n: nat, base: nat): (s: string)
    requires base == 10 || base == 16
    ensures |s| > 0
    decreases n
  {
    if n < base then [DIGITS[n]]
    else
      QuotientLess(n, base);
      Digits(n / base, base) + [DIGITS[n % base]]
  }

  lemma QuotientLess(n: nat, base: nat)
    requires (base == 10 || base == 16) && base <= n
    ensures 0 <= n / base < n
  {
    if base == 10 {
      assert n / 10 < n;
    } else {
      assert n / 16 < n;
    }
  }

  function Zeros(n: nat): (s: string)
    ensures |s| == n && forall c :: c in s ==> c == '0'
  {
    if n == 0 then "" else "0" + Zeros(n - 1)
  }

  /** `%x` with a minimum width padded by zeros. */
  function Hex(n: nat, width: nat): (s: string)
    ensures |s| > 0
  {
    var d := Digits(n, 16);
    Zeros(if |d| < width then width - |d| else 0) + d
  }

  /** The value of a digit, 16 for other characters. */
  function DigitValue(c: char): nat {
    if '0' <= c <= '9' then c as int - '0' as int
    else if 'a' <= c <= 'f' then c as int - 'a' as int + 10
    else if 'A' <= c <= 'F' then c as int - 'A' as int + 10
    else 16
  }

  predicate StartsWithDigit(s: string, base: nat) { s != "" && DigitValue(s[0]) < base }

  /** The number that the leading digits of `s` make, after `acc`, and how many they are. */
  function Scan(s: string, base: nat, acc: nat): (r: (nat, nat))
    ensures r.1 <= |s|
  {
    if StartsWithDigit(s, base) then
      var (v, n) := Scan(s[1..], base, acc * base + DigitValue(s[0]));
      (v, n + 1)
    else (acc, 0)
  }

  predicate IsSpace(c: char) { c == ' ' || '\t' <= c <= '\r' }

  function Spaces(s: string): (n: nat)
    ensures n <= |s|
  {
    if s != "" && IsSpace(s[0]) then 1 + Spaces(s[1..]) else 0
  }

  /** `strtoul`: the value, and the index where it stopped.  `top` is `ULONG_MAX`. */
  function Strtoul(s: string, base: nat, top: nat): (r: (nat, nat))
    ensures r.1 <= |s|
  {
    var start := Spaces(s);
    var signed := start < |s| && (s[start] == '+' || s[start] == '-');
    var digits := if signed then start + 1 else start;
    var skip := if base == 16 && digits + 1 < |s| && s[digits] == '0' && (s[digits + 1] == 'x' || s[digits + 1] == 'X')
                   && StartsWithDigit(s[digits + 2..], 16) then 2 else 0;
    var (v, n) := Scan(s[digits + skip..], base, 0);
    if n == 0 then (0, 0)
    else
      var clipped := if v > top then top else v;
      (if signed && s[start] == '-' && v <= top then (top + 1 - clipped) % (top + 1) else clipped, digits + skip + n)
  }

  /** Conversion to a signed type of the given modulus. */
  function Wrapped(v: nat, modulus: nat): int
    requires modulus > 0
  {
    var r := v % modulus;
    if r >= modulus / 2 then r - modulus else r
  }

  // ------------------------------------------------------------------ the parser

  datatype Parsed = NameError | Name(name: ChipName)

  /** `strchr(s, '-')`: the index of the first dash, or the length. */
  function Dash(s: string): (n: nat)
    ensures n <= |s| && (n < |s| ==> s[n] == '-') && '-' !in s[..n]
  {
    if s == "" || s[0] == '-' then 0 else 1 + Dash(s[1..])
  }

  /** `!strncmp(name, word, dash - name)`: what comes before the dash is an initial part of the word. */
  predicate Abbreviates(s: string, word: string) { s <= word }

  function BusType(word: string): int {
    if Abbreviates(word, "i2c") then I2C
    else if Abbreviates(word, "isa") then ISA
    else if Abbreviates(word, "pci") then PCI
    else if Abbreviates(word, "spi") then SPI
    else if Abbreviates(word, "virtual") then VIRTUAL
    else if Abbreviates(word, "acpi") then ACPI
    else if Abbreviates(word, "hid") then HID
    else ANY
  }

  predicate Numbered(busType: int) { busType == I2C || busType == SPI || busType == HID }

  /** `sensors_parse_chip_name`; `top` is `ULONG_MAX`. */
  function Parse(s: string, top: nat): Parsed {
    if "*-" <= s then ParseBus(AnyPrefix, s[2..], top)
    else if Dash(s) == |s| then NameError
    else ParseBus(Named(s[..Dash(s)]), s[Dash(s) + 1..], top)
  }

  function ParseBus(prefix: Prefix, s: string, top: nat): Parsed {
    if s == "*" then Name(ChipName(prefix, ANY, ANY, ANY))
    else if Dash(s) == |s| then NameError
    else
      var t := BusType(s[..Dash(s)]);
      var rest := s[Dash(s) + 1..];
      if t == ANY then NameError
      else if !Numbered(t) then ParseAddr(prefix, t, ANY, rest, top)
      else if "*-" <= rest then ParseAddr(prefix, t, ANY, rest[2..], top)
      else
        var (v, end) := Strtoul(rest, 10, top);
        var nr := Wrapped(v, 0x1_0000);
        if rest == "" || end == |rest| || rest[end] != '-' || nr < 0 then NameError
        else ParseAddr(prefix, t, nr, rest[end + 1..], top)
  }

  function ParseAddr(prefix: Prefix, t: int, nr: int, s: string, top: nat): Parsed {
    if s == "*" then Name(ChipName(prefix, t, nr, ANY))
    else
      var (v, end) := Strtoul(s, 16, top);
      var addr := Wrapped(v, 0x1_0000_0000);
      if s == "" || end != |s| || addr < 0 then NameError
      else Name(ChipName(prefix, t, nr, addr))
  }

  // ------------------------------------------------------------------ the printer

  datatype Printed = PrintError | Text(s: string)

  function Decimal(n: int): string {
    if n < 0 then "-" + Digits(-n, 10) else Digits(n, 10)
  }

  /** The address as `unsigned int`. */
  function Unsigned(addr: int): nat {
    if addr < 0 then addr % 0x1_0000_0000 else addr
  }

  function BusWord(busType: int): string {
    if busType == I2C then "i2c" else if busType == ISA then "isa" else if busType == PCI then "pci"
    else if busType == SPI then "spi" else if busType == VIRTUAL then "virtual"
    else if busType == ACPI then "acpi" else "hid"
  }

  function AddrWidth(busType: int): nat {
    if busType == ISA || busType == PCI then 4 else if busType == I2C then 2 else 1
  }

  /** `sensors_snprintf_chip_name` into a buffer that is long enough. */
  function Print(c: ChipName): Printed {
    if HasWildcards(c) then PrintError
    else if !(I2C <= c.busType <= HID) then PrintError
    else
      Text(c.prefix.s + "-" + BusWord(c.busType) + "-"
           + (if Numbered(c.busType) then Decimal(c.busNr) + "-" else "")
           + Hex(Unsigned(c.addr), AddrWidth(c.busType)))
  }

  // ------------------------------------------------------------------ reading numbers back

  lemma DigitBack(d: nat)
    requires d < 16
    ensures DigitValue(DIGITS[d]) == d && DIGITS[d] != '-' && DIGITS[d] != '*' && !IsSpace(DIGITS[d])
    ensures DIGITS[d] != '+' && DIGITS[d] != 'x' && DIGITS[d] != 'X'
  {
  }

  lemma ScanStep(c: char, rest: string, base: nat, acc: nat)
    requires DigitValue(c) < base
    ensures var (v, k) := Scan(rest, base, acc * base + DigitValue(c)); Scan([c] + rest, base, acc) == (v, k + 1)
  {
    assert ([c] + rest)[1..] == rest;
  }

  lemma DivMod(n: nat, base: nat)
    requires base == 10 || base == 16
    ensures n / base * base + n % base == n
  {
    if base == 10 {
      assert n / 10 * 10 + n % 10 == n;
    } else {
      assert n / 16 * 16 + n % 16 == n;
    }
  }

  lemma DigitsStep(n: nat, base: nat)
    requires base == 10 || base == 16
    ensures n < base ==> Digits(n, base) == [DIGITS[n]]
    ensures n >= base ==> n / base < n && Digits(n, base) == Digits(n / base, base) + [DIGITS[n % base]]
  {
    if n >= base {
      QuotientLess(n, base);
    }
  }

  /** Scanning the digits of `n` leaves `n` in the accumulator, whatever follows. */
  lemma {:induction false} ScanAppend(n: nat, base: nat, rest: string)
    requires base == 10 || base == 16
    ensures var d := Digits(n, base); var (v, k) := Scan(rest, base, n);
            Scan(d + rest, base, 0) == (v, |d| + k)
    decreases n
  {
    hide DigitValue, Scan, Digits;
    DigitsStep(n, base);
    if n < base {
      DigitBack(n);
      ScanStep(DIGITS[n], rest, base, 0);
    } else {
      var q, last := n / base, [DIGITS[n % base]];
      ScanLast(n, base, rest);
      ScanAppend(q, base, last + rest);
      assert Digits(q, base) + last + rest == Digits(q, base) + (last + rest);
    }
  }

  lemma ScanLast(n: nat, base: nat, rest: string)
    requires base == 10 || base == 16
    ensures var (v, k) := Scan(rest, base, n); Scan([DIGITS[n % base]] + rest, base, n / base) == (v, k + 1)
  {
    hide DigitValue, Scan;
    DigitBack(n % base);
    DivMod(n, base);
    ScanStep(DIGITS[n % base], rest, base, n / base);
  }

  lemma {:induction false} ScanZeros(k: nat, s: string, base: nat)
    requires base >= 2
    ensures var (v, n) := Scan(s, base, 0); Scan(Zeros(k) + s, base, 0) == (v, k + n)
  {
    hide Scan;
    if k > 0 {
      ScanZeros(k - 1, s, base);
      assert Zeros(k) + s == ['0'] + (Zeros(k - 1) + s);
      ScanStep('0', Zeros(k - 1) + s, base, 0);
    } else {
      assert Zeros(0) + s == s;
    }
  }

  lemma ScanHex(n: nat, width: nat)
    ensures Scan(Hex(n, width), 16, 0) == (n, |Hex(n, width)|)
  {
    var d := Digits(n, 16);
    assert d + "" == d;
    ScanAppend(n, 16, "");
    ScanZeros(if |d| < width then width - |d| else 0, d, 16);
  }

  /** Printed numbers consist of digits. */
  lemma {:induction false} DigitsPlain(n: nat, base: nat)
    requires base == 10 || base == 16
    ensures forall c :: c in Digits(n, base) ==> PlainDigit(c)
    decreases n
  {
    hide PlainDigit;
    if n < base {
      PlainAt(n);
    } else {
      DigitsPlain(n / base, base);
      PlainAt(n % base);
    }
  }

  predicate PlainDigit(c: char) {
    DigitValue(c) < 16 && !IsSpace(c) && c != '-' && c != '+' && c != '*' && c != 'x' && c != 'X'
  }

  lemma PlainAt(d: nat)
    requires d < 16
    ensures PlainDigit(DIGITS[d])
  {
    DigitBack(d);
  }

  lemma HexPlain(n: nat, width: nat)
    ensures forall c :: c in Hex(n, width) ==> PlainDigit(c)
  {
    hide PlainDigit;
    DigitsPlain(n, 16);
    PlainAt(0);
  }

  /** On plain digits `strtoul` is the scan: no blanks, no sign, no `0x`. */
  lemma StrtoulPlain(s: string, base: nat, top: nat)
    requires s != "" && PlainDigit(s[0]) && (|s| > 1 ==> s[1] != 'x' && s[1] != 'X')
    requires Scan(s, base, 0).1 > 0 && Scan(s, base, 0).0 <= top
    ensures Strtoul(s, base, top) == Scan(s, base, 0)
  {
    assert s[0..] == s;
  }

  // ------------------------------------------------------------------ round trip

  lemma {:induction false} DashAt(a: string, b: string)
    requires '-' !in a
    ensures Dash(a + "-" + b) == |a|
  {
    if a == "" {
      assert a + "-" + b == "-" + b;
    } else {
      DashAt(a[1..], b);
      assert (a + "-" + b)[1..] == a[1..] + "-" + b;
    }
  }

  lemma BusWordBack(t: int)
    requires I2C <= t <= HID
    ensures BusType(BusWord(t)) == t && '-' !in BusWord(t)
  {
    assert "isa"[1] != "i2c"[1];
    var s := BusWord(t);
    assert t == I2C || t == ISA || (s[0] != "i2c"[0] && s[0] != "isa"[0]);
    assert t == PCI || s[0] != "pci"[0];
    assert t == SPI || s[0] != "spi"[0];
    assert t == VIRTUAL || s[0] != "virtual"[0];
    assert t == ACPI || s[0] != "acpi"[0];
  }

  lemma AddrBack(prefix: Prefix, t: int, nr: int, addr: nat, width: nat, top: nat)
    requires addr < 0x8000_0000 <= top
    ensures ParseAddr(prefix, t, nr, Hex(addr, width), top) == Name(ChipName(prefix, t, nr, addr))
  {
    hide Hex, Scan, PlainDigit, Strtoul;
    var s := Hex(addr, width);
    HexPlain(addr, width);
    ScanHex(addr, width);
    NotBlank(s[0]);
    if |s| > 1 { NotBlank(s[1]); }
    StrtoulPlain(s, 16, top);
    assert "*"[0] == '*';
  }

  lemma NotBlank(c: char)
    requires PlainDigit(c)
    ensures c != '*' && c != 'x' && c != 'X' && c != '-'
  {
  }

  lemma NumberBack(nr: nat, rest: string, top: nat)
    requires nr < 0x8000 && top >= 0x8000
    ensures var s := Digits(nr, 10) + "-" + rest;
      && Strtoul(s, 10, top) == (nr, |Digits(nr, 10)|)
      && !("*-" <= s)
  {
    hide Digits, PlainDigit, Strtoul;
    var d := Digits(nr, 10);
    var s := d + "-" + rest;
    assert s == d + ("-" + rest);
    DigitsPlain(nr, 10);
    ScanAppend(nr, 10, "-" + rest);
    assert Scan("-" + rest, 10, nr) == (nr, 0);
    assert s[0] == d[0];
    NotBlank(d[0]);
    if |d| > 1 { NotBlank(d[1]); }
    StrtoulPlain(s, 10, top);
  }

  /** The bus word is found and what follows its dash is parsed by its type. */
  lemma BusWordRead(prefix: Prefix, t: int, rest: string, top: nat)
    requires I2C <= t <= HID
    ensures ParseBus(prefix, BusWord(t) + "-" + rest, top) ==
      if !Numbered(t) then ParseAddr(prefix, t, ANY, rest, top)
      else if "*-" <= rest then ParseAddr(prefix, t, ANY, rest[2..], top)
      else
        var (v, end) := Strtoul(rest, 10, top);
        var nr := Wrapped(v, 0x1_0000);
        if rest == "" || end == |rest| || rest[end] != '-' || nr < 0 then NameError
        else ParseAddr(prefix, t, nr, rest[end + 1..], top)
  {
    hide Strtoul, ParseAddr, BusType, BusWord, Numbered, Wrapped;
    var word := BusWord(t);
    var s := word + "-" + rest;
    BusWordBack(t);
    DashAt(word, rest);
    assert s[|word|] == '-';
    assert s[..|word|] == word && s[|word| + 1..] == rest;
  }

  lemma HexNotStar(addr: nat, width: nat)
    ensures !("*-" <= Hex(addr, width))
  {
    hide Hex;
    HexPlain(addr, width);
    var s := Hex(addr, width);
    assert s[0] in s;
  }

  /** The part behind the prefix is read back. */
  lemma BusBack(prefix: Prefix, t: int, nr: nat, addr: nat, top: nat)
    requires I2C <= t <= HID && nr < 0x8000 && addr < 0x8000_0000 <= top
    ensures var s := BusWord(t) + "-" + (if Numbered(t) then Digits(nr, 10) + "-" else "") + Hex(addr, AddrWidth(t));
      ParseBus(prefix, s, top) == Name(ChipName(prefix, t, if Numbered(t) then nr else ANY, addr))
  {
    hide Hex, Digits, Strtoul, ParseAddr, ParseBus, BusWord, Numbered;
    var word, hex, digits := BusWord(t), Hex(addr, AddrWidth(t)), Digits(nr, 10);
    AddrBack(prefix, t, if Numbered(t) then nr else ANY, addr, AddrWidth(t), top);
    if Numbered(t) {
      var rest := digits + "-" + hex;
      NumberBack(nr, hex, top);
      BusWordRead(prefix, t, rest, top);
      assert rest[|digits|] == '-' && rest[|digits| + 1..] == hex;
      assert word + "-" + rest == word + "-" + (digits + "-") + hex;
    } else {
      HexNotStar(addr, AddrWidth(t));
      BusWordRead(prefix, t, hex, top);
      assert word + "-" + hex == word + "-" + "" + hex;
    }
  }

  /** A name without wildcards, with numbers in range. */
  predicate Concrete(c: ChipName) {
    && c.prefix.Named? && I2C <= c.busType <= HID && 0 <= c.busNr < 0x8000 && 0 <= c.addr < 0x8000_0000
  }

  /** What is left of a name when its bus type has no number. */
  function Normal(c: ChipName): ChipName {
    if Numbered(c.busType) then c else c.(busNr := ANY)
  }

  /** Everything of a printed name behind the prefix and its dash. */
  function Tail(c: ChipName): string
    requires Concrete(c)
  {
    BusWord(c.busType) + "-" + (if Numbered(c.busType) then Digits(c.busNr, 10) + "-" else "")
    + Hex(c.addr, AddrWidth(c.busType))
  }

  lemma PrintIs(c: ChipName)
    requires Concrete(c)
    ensures Print(c) == Text(c.prefix.s + "-" + Tail(c))
  {
    hide Hex, Digits, BusWord;
  }

  /** A clean prefix is found again. */
  lemma CleanPrefix(p: string, tail: string, top: nat)
    requires '-' !in p && p != "*"
    ensures Parse(p + "-" + tail, top) == ParseBus(Named(p), tail, top)
  {
    hide ParseBus;
    var s := p + "-" + tail;
    DashAt(p, tail);
    assert s[..|p|] == p && s[|p| + 1..] == tail;
  }

  /** Any other is not. */
  lemma OtherPrefix(p: string, tail: string, top: nat)
    requires '-' in p || p == "*"
    ensures var r := Parse(p + "-" + tail, top); r.Name? ==> r.name.prefix != Named(p)
  {
    hide ParseBus;
    var s := p + "-" + tail;
    if "*-" <= s {
      PrefixKept(AnyPrefix, s[2..], top);
    } else {
      DashBefore(p, "-" + tail);
      assert s == p + ("-" + tail);
      PrefixKept(Named(s[..Dash(s)]), s[Dash(s) + 1..], top);
    }
  }

  /** Printing and parsing gives the name back, except the number of an unnumbered bus, exactly when its
      prefix has no dash and is not the wildcard. */
  lemma RoundTrip(c: ChipName, top: nat)
    requires Concrete(c) && top >= 0x8000_0000
    ensures Print(c).Text?
    ensures Parse(Print(c).s, top) == Name(Normal(c)) <==> '-' !in c.prefix.s && c.prefix.s != "*"
    ensures Match(Normal(c), c)
  {
    hide Parse, ParseBus, Print;
    PrintIs(c);
    var p := c.prefix.s;
    if '-' in p || p == "*" {
      OtherPrefix(p, Tail(c), top);
    } else {
      CleanPrefix(p, Tail(c), top);
      BusBack(c.prefix, c.busType, c.busNr, c.addr, top);
    }
  }

  lemma {:induction false} DashBefore(a: string, b: string)
    requires '-' in a
    ensures Dash(a + b) < |a|
  {
    if a[0] != '-' {
      assert a == [a[0]] + a[1..];
      DashBefore(a[1..], b);
      assert (a + b)[1..] == a[1..] + b;
    }
  }

  /** The parser of the rest keeps the prefix it is given. */
  lemma PrefixKept(prefix: Prefix, s: string, top: nat)
    ensures ParseBus(prefix, s, top).Name? ==> ParseBus(prefix, s, top).name.prefix == prefix
  {
    hide Strtoul, BusType;
  }

  // ------------------------------------------------------------------ patterns

  /** A pattern of the configuration file: any or a clean prefix, and either any bus or a bus with number
      and address, each possibly any. */
  predicate IsPattern(p: ChipName) {
    && (p.prefix.Named? ==> '-' !in p.prefix.s && p.prefix.s != "*")
    && if p.busType == ANY then p.busNr == ANY && p.addr == ANY
       else
         && I2C <= p.busType <= HID
         && (p.busNr == ANY || (Numbered(p.busType) && 0 <= p.busNr < 0x8000))
         && (p.addr == ANY || 0 <= p.addr < 0x8000_0000)
  }

  /** How the pattern is written. */
  function Written(p: ChipName): string
    requires IsPattern(p)
  {
    (if p.prefix.AnyPrefix? then "*" else p.prefix.s) + "-" + WrittenTail(p)
  }

  function WrittenTail(p: ChipName): string
    requires IsPattern(p)
  {
    if p.busType == ANY then "*" else BusWord(p.busType) + "-" + WrittenRest(p)
  }

  function WrittenRest(p: ChipName): string
    requires IsPattern(p) && p.busType != ANY
  {
    var addr := if p.addr == ANY then "*" else Hex(p.addr, AddrWidth(p.busType));
    if !Numbered(p.busType) then addr
    else if p.busNr == ANY then "*" + "-" + addr
    else Digits(p.busNr, 10) + "-" + addr
  }

  lemma AddrRead(p: ChipName, top: nat)
    requires IsPattern(p) && p.busType != ANY && top >= 0x8000_0000
    ensures var addr := if p.addr == ANY then "*" else Hex(p.addr, AddrWidth(p.busType));
      ParseAddr(p.prefix, p.busType, p.busNr, addr, top) == Name(p)
  {
    hide Hex, Strtoul;
    if p.addr != ANY {
      AddrBack(p.prefix, p.busType, p.busNr, p.addr, AddrWidth(p.busType), top);
    }
  }

  lemma TailRead(p: ChipName, top: nat)
    requires IsPattern(p) && top >= 0x8000_0000
    ensures ParseBus(p.prefix, WrittenTail(p), top) == Name(p)
  {
    hide WrittenRest;
    if p.busType != ANY {
      RestRead(p, top);
    }
  }

  lemma RestRead(p: ChipName, top: nat)
    requires IsPattern(p) && p.busType != ANY && top >= 0x8000_0000
    ensures ParseBus(p.prefix, BusWord(p.busType) + "-" + WrittenRest(p), top) == Name(p)
  {
    hide Hex, Digits, Strtoul, ParseAddr, ParseBus, BusWord;
    AddrRead(p, top);
    var addr := if p.addr == ANY then "*" else Hex(p.addr, AddrWidth(p.busType));
    var rest := WrittenRest(p);
    BusWordRead(p.prefix, p.busType, rest, top);
    if Numbered(p.busType) {
      if p.busNr == ANY {
        assert "*-" <= rest && rest[2..] == addr;
      } else {
        NumberBack(p.busNr, addr, top);
        var n := |Digits(p.busNr, 10)|;
        assert rest[n] == '-' && rest[n + 1..] == addr;
      }
    }
  }

  /** Every pattern is read as what it says. */
  lemma PatternBack(p: ChipName, top: nat)
    requires IsPattern(p) && top >= 0x8000_0000
    ensures Parse(Written(p), top) == Name(p)
  {
    hide ParseBus, WrittenTail;
    TailRead(p, top);
    if p.prefix.AnyPrefix? {
      assert "*-" <= Written(p) && Written(p)[2..] == WrittenTail(p);
    } else {
      CleanPrefix(p.prefix.s, WrittenTail(p), top);
    }
  }

  /** A name without a dash is refused. */
  lemma NoDashRefused(s: string, top: nat)
    requires '-' !in s
    ensures Parse(s, top) == NameError
  {
    if "*-" <= s {
      DashIn(s);
    }
  }

  lemma DashIn(s: string)
    requires "*-" <= s
    ensures '-' in s
  {
    assert s[1] == '-';
  }

  lemma UnknownType(word: string)
    requires !(word <= "i2c") && !(word <= "isa") && !(word <= "pci") && !(word <= "spi")
    requires !(word <= "virtual") && !(word <= "acpi") && !(word <= "hid")
    ensures BusType(word) == ANY
  {
  }

  /** So is a bus that is not the beginning of a known word. */
  lemma UnknownBusRefused(p: string, word: string, rest: string, top: nat)
    requires '-' !in p && p != "*" && '-' !in word
    requires !(word <= "i2c") && !(word <= "isa") && !(word <= "pci") && !(word <= "spi")
    requires !(word <= "virtual") && !(word <= "acpi") && !(word <= "hid")
    ensures Parse(p + "-" + (word + "-" + rest), top) == NameError
  {
    UnknownType(word);
    hide ParseAddr, Strtoul, BusType, Parse;
    var s := word + "-" + rest;
    CleanPrefix(p, s, top);
    DashAt(word, rest);
    assert s[|word|] == '-' && s[..|word|] == word;
  }

  /** Bus words may be cut short; what two words have in common means the first of them. */
  lemma ShortBusWords(k: nat)
    ensures k <= 3 ==> BusType("i2c"[..k]) == I2C
    ensures 2 <= k <= 3 ==> BusType("isa"[..k]) == ISA
    ensures 1 <= k <= 3 ==> BusType("pci"[..k]) == PCI && BusType("spi"[..k]) == SPI && BusType("hid"[..k]) == HID
    ensures 1 <= k <= 7 ==> BusType("virtual"[..k]) == VIRTUAL
    ensures 1 <= k <= 4 ==> BusType("acpi"[..k]) == ACPI
  {
    if 1 <= k {
      Shortened("pci", k);
      Shortened("spi", k);
      Shortened("virtual", k);
      Shortened("acpi", k);
      Shortened("hid", k);
      if 2 <= k {
        Shortened("isa", k);
      }
    }
  }

  lemma Shortened(w: string, k: nat)
    ensures 1 <= k <= |w| ==> |w[..k]| == k && w[..k][0] == w[0] && w[..k] <= w
    ensures 2 <= k <= |w| ==> w[..k][1] == w[1]
  {
  }

  // ------------------------------------------------------------------ how names look

  lemma PrintedNumbered(c: ChipName, word: string, number: string, addr: string)
    requires Concrete(c) && Numbered(c.busType) && BusWord(c.busType) == word
    requires Digits(c.busNr, 10) == number && Hex(c.addr, AddrWidth(c.busType)) == addr
    ensures Print(c) == Text(c.prefix.s + "-" + word + "-" + number + "-" + addr)
  {
    hide Digits, Hex, BusWord;
    assert c.prefix.s + "-" + word + "-" + (number + "-") + addr == c.prefix.s + "-" + word + "-" + number + "-" + addr;
  }

  lemma PrintedPlain(c: ChipName, word: string, addr: string)
    requires Concrete(c) && !Numbered(c.busType) && BusWord(c.busType) == word
    requires Hex(c.addr, AddrWidth(c.busType)) == addr
    ensures Print(c) == Text(c.prefix.s + "-" + word + "-" + addr)
  {
    hide Digits, Hex, BusWord;
    assert c.prefix.s + "-" + word + "-" + "" + addr == c.prefix.s + "-" + word + "-" + addr;
  }

  lemma TwoDigits(hi: nat, lo: nat, base: nat)
    requires (base == 10 || base == 16) && 0 < hi < base && lo < base
    ensures Digits(hi * base + lo, base) == [DIGITS[hi], DIGITS[lo]]
  {
    assert (hi * base + lo) / base == hi && (hi * base + lo) % base == lo;
    assert Digits(hi, base) == [DIGITS[hi]];
  }

  /** A name on an I2C bus: prefix, bus, number in decimal, address in two hexadecimal digits. */
  lemma PrintedI2c(prefix: string, nr: nat, hi: nat, lo: nat)
    requires nr < 10 && hi < 16 && lo < 16
    ensures Print(ChipName(Named(prefix), I2C, nr, hi * 16 + lo))
         == Text(prefix + "-" + "i2c" + "-" + [DIGITS[nr]] + "-" + [DIGITS[hi], DIGITS[lo]])
  {
    if hi > 0 {
      TwoDigits(hi, lo, 16);
      assert Zeros(0) + [DIGITS[hi], DIGITS[lo]] == [DIGITS[hi], DIGITS[lo]];
    } else {
      assert Zeros(1) == "0" && Zeros(1) + [DIGITS[lo]] == [DIGITS[0], DIGITS[lo]];
    }
    PrintedNumbered(ChipName(Named(prefix), I2C, nr, hi * 16 + lo), "i2c", [DIGITS[nr]], [DIGITS[hi], DIGITS[lo]]);
  }

  /** The words of the buses, and which of them show a number. */
  lemma BusWords(prefix: string, d: nat)
    requires d < 16
    ensures var p, a := prefix + "-", [DIGITS[d]];
      && Print(ChipName(Named(prefix), ISA, 0, d)) == Text(p + "isa" + "-" + ("000" + a))
      && Print(ChipName(Named(prefix), PCI, 0, d)) == Text(p + "pci" + "-" + ("000" + a))
      && Print(ChipName(Named(prefix), SPI, 0, d)) == Text(p + "spi" + "-" + "0" + "-" + a)
      && Print(ChipName(Named(prefix), VIRTUAL, 0, d)) == Text(p + "virtual" + "-" + a)
      && Print(ChipName(Named(prefix), ACPI, 0, d)) == Text(p + "acpi" + "-" + a)
      && Print(ChipName(Named(prefix), HID, 0, d)) == Text(p + "hid" + "-" + "0" + "-" + a)
  {
    var a := [DIGITS[d]];
    assert Digits(d, 16) == a && Digits(0, 10) == "0";
    assert Hex(d, 1) == a by { assert Zeros(0) + a == a; }
    assert Hex(d, 4) == "000" + a by { ThreeZeros(); }
    hide Digits, Hex;
    PrintedPlain(ChipName(Named(prefix), ISA, 0, d), "isa", "000" + a);
    PrintedPlain(ChipName(Named(prefix), PCI, 0, d), "pci", "000" + a);
    PrintedPlain(ChipName(Named(prefix), VIRTUAL, 0, d), "virtual", a);
    PrintedPlain(ChipName(Named(prefix), ACPI, 0, d), "acpi", a);
    PrintedNumbered(ChipName(Named(prefix), SPI, 0, d), "spi", "0", a);
    PrintedNumbered(ChipName(Named(prefix), HID, 0, d), "hid", "0", a);
  }

  lemma ThreeZeros()
    ensures Zeros(3) == "000"
  {
    assert Zeros(1) == "0" && Zeros(2) == "00";
  }
}
