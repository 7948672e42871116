/** IPv4 addresses with a prefix length and their text form (dns-server/internal/types.go). */
module Addresses {
  import opened Basics

  datatype Address = Address(b0: uint8, b1: uint8, b2: uint8, b3: uint8, prefix: uint8)

  /** `newIPv4` makes no other values. */
  type IPv4 = a: Address | a.prefix <= 32 witness Address(0, 0, 0, 0, 0)

  // ------------------------------------------------------------ printing

  function Digit(d: nat): char
    requires d < 10
  {
    "0123456789"[d]
  }

  predicate IsDigit(c: char) {
    '0' <= c <= '9'
  }

  function DigitValue(c: char): nat
    requires IsDigit(c)
  {
    c as int - '0' as int
  }

  function Itoa(n: nat): (s: string)
    ensures s != "" && forall c :: c in s ==> IsDigit(c)
  {
    if n < 10 then [Digit(n)] else Itoa(n / 10) + [Digit(n % 10)]
  }

  function Dotted(a: IPv4): string {
    Itoa(a.b0) + ("." + (Itoa(a.b1) + ("." + (Itoa(a.b2) + ("." + Itoa(a.b3))))))
  }

  function Print(a: IPv4): string {
    if a.prefix == 32 then Dotted(a) else Dotted(a) + "/" + Itoa(a.prefix)
  }

  // ------------------------------------------------------------ parsing

  /** The scan of a dotted quad: `val` and `digits` belong to the number being read, `fields` are
      the finished ones. Leading zeros, numbers above 255, empty numbers and a wrong count are errors. */
  function Scan(s: string, val: nat, digits: nat, fields: seq<uint8>): Option<seq<uint8>>
    requires val <= 255
    decreases |s|
  {
    if s == "" then
      if |fields| < 3 then None else Some(fields + [val])
    else if IsDigit(s[0]) then
      if digits == 1 && val == 0 then None
      else if val * 10 + DigitValue(s[0]) > 255 then None
      else Scan(s[1..], val * 10 + DigitValue(s[0]), digits + 1, fields)
    else if s[0] == '.' then
      if digits == 0 || |s| == 1 || |fields| == 3 then None
      else Scan(s[1..], 0, 0, fields + [val])
    else None
  }

  /** The first '.' or ':' decides between the two address families. */
  function LooksLikeIPv4(s: string): bool
    decreases |s|
  {
    s != "" && (s[0] == '.' || (s[0] != ':' && s[0] != '%' && LooksLikeIPv4(s[1..])))
  }

  function ParseDotted(s: string): Option<seq<uint8>> {
    if !LooksLikeIPv4(s) then None
    else
      var fields := Scan(s, 0, 0, []);
      if fields.Some? && |fields.value| == 4 then fields else None
  }

  function DecimalValue(s: string): Option<nat> {
    if s == "" then Some(0)
    else
      var high := DecimalValue(s[..|s| - 1]);
      if high.Some? && IsDigit(s[|s| - 1]) then Some(10 * high.value + DigitValue(s[|s| - 1])) else None
  }

  /** `strconv.Atoi`: an optional sign, at least one digit, and a value that fits in `int`. */
  function Atoi(w: Width, s: string): Option<int> {
    var digits := if s != "" && (s[0] == '-' || s[0] == '+') then s[1..] else s;
    var n := DecimalValue(digits);
    if digits == "" || n.None? then None
    else if s[0] == '-' then (if n.value <= MaxInt(w) + 1 then Some(0 - n.value) else None)
    else (if n.value <= MaxInt(w) then Some(n.value) else None)
  }

  /** The index of the first slash, or the length. */
  function Slash(s: string): (p: nat)
    ensures p <= |s| && (p < |s| ==> s[p] == '/') && '/' !in s[..p]
  {
    if s == "" || s[0] == '/' then 0
    else
      var p := Slash(s[1..]);
      assert s[..p + 1] == [s[0]] + s[1..][..p];
      p + 1
  }

  datatype Parsed = Address4(ip: IPv4) | SyntaxError | Panic

  function NewIPv4(fields: Option<seq<uint8>>, prefix: int): Parsed
    requires fields.Some? ==> |fields.value| == 4
  {
    if fields.None? || prefix < 0 || prefix > 32 then Panic
    else Address4(Address(fields.value[0], fields.value[1], fields.value[2], fields.value[3], prefix))
  }

  /** `ParseIPv4`. Only a malformed prefix is an error; a malformed address or a prefix out of range
      panics. */
  function Parse(w: Width, s: string): Parsed {
    var p := Slash(s);
    if p == |s| then NewIPv4(ParseDotted(s), 32)
    else
      var prefix := Atoi(w, s[p + 1..]);
      if prefix.None? then SyntaxError else NewIPv4(ParseDotted(s[..p]), prefix.value)
  }

  // ------------------------------------------------------------ round trip

  lemma ScanDigit(d: nat, rest: string, val: nat, digits: nat, fields: seq<uint8>)
    requires d < 10 && val <= 255 && val * 10 + d <= 255 && !(digits == 1 && val == 0)
    ensures Scan([Digit(d)] + rest, val, digits, fields) == Scan(rest, val * 10 + d, digits + 1, fields)
  {
    assert ([Digit(d)] + rest)[1..] == rest;
  }

  lemma ItoaSplits(n: nat)
    ensures n < 10 ==> Itoa(n) == [Digit(n)]
    ensures n >= 10 ==> Itoa(n) == Itoa(n / 10) + [Digit(n % 10)]
  {
  }

  lemma {:induction false} ScanNumber(n: uint8, rest: string, fields: seq<uint8>)
    ensures Scan(Itoa(n) + rest, 0, 0, fields) == Scan(rest, n, |Itoa(n)|, fields)
  {
    hide Scan, Itoa, Digit;
    ItoaSplits(n);
    if n < 10 {
      ScanDigit(n, rest, 0, 0, fields);
    } else {
      var q, d := n / 10, n % 10;
      ScanNumber(q, [Digit(d)] + rest, fields);
      ScanDigit(d, rest, q, |Itoa(q)|, fields);
      assert Itoa(q) + [Digit(d)] + rest == Itoa(q) + ([Digit(d)] + rest);
    }
  }

  lemma ScanField(n: uint8, rest: string, fields: seq<uint8>)
    requires rest != "" && |fields| < 3
    ensures Scan(Itoa(n) + ("." + rest), 0, 0, fields) == Scan(rest, 0, 0, fields + [n])
  {
    var s := "." + rest;
    ScanNumber(n, s, fields);
    assert s[0] == '.' && s[1..] == rest && |Itoa(n)| > 0;
    assert Scan(s, n, |Itoa(n)|, fields) == Scan(s[1..], 0, 0, fields + [n]);
  }

  lemma ScanDotted(a: IPv4)
    ensures Scan(Dotted(a), 0, 0, []) == Some([a.b0, a.b1, a.b2, a.b3])
  {
    var r3 := Itoa(a.b3);
    var r2 := Itoa(a.b2) + ("." + r3);
    var r1 := Itoa(a.b1) + ("." + r2);
    assert Dotted(a) == Itoa(a.b0) + ("." + r1);
    ScanField(a.b0, r1, []);
    ScanField(a.b1, r2, [a.b0]);
    ScanField(a.b2, r3, [a.b0, a.b1]);
    ScanNumber(a.b3, "", [a.b0, a.b1, a.b2]);
    assert r3 + "" == r3;
    assert [] + [a.b0] == [a.b0] && [a.b0] + [a.b1] == [a.b0, a.b1];
    assert [a.b0, a.b1] + [a.b2] == [a.b0, a.b1, a.b2];
    assert [a.b0, a.b1, a.b2] + [a.b3] == [a.b0, a.b1, a.b2, a.b3];
  }

  lemma {:induction false} DigitsThenDot(d: string, rest: string)
    requires forall c :: c in d ==> IsDigit(c)
    ensures LooksLikeIPv4(d + "." + rest)
  {
    if d == "" {
      assert d + "." + rest == "." + rest;
    } else {
      var s := d + "." + rest;
      assert s[1..] == d[1..] + "." + rest;
      assert s[0] == d[0] && IsDigit(d[0]);
      DigitsThenDot(d[1..], rest);
    }
  }

  lemma DottedHasNoSlash(a: IPv4)
    ensures '/' !in Dotted(a)
  {
  }

  lemma {:induction false} SlashAt(s: string, t: string)
    requires '/' !in s
    ensures Slash(s) == |s| && Slash(s + "/" + t) == |s|
  {
    if s == "" {
      assert s + "/" + t == "/" + t;
    } else {
      assert (s + "/" + t)[1..] == s[1..] + "/" + t;
      SlashAt(s[1..], t);
    }
  }

  lemma {:induction false} ItoaValue(n: nat)
    ensures DecimalValue(Itoa(n)) == Some(n)
  {
    if n >= 10 {
      ItoaValue(n / 10);
      assert Itoa(n)[..|Itoa(n)| - 1] == Itoa(n / 10);
    } else {
      assert Itoa(n)[..0] == "";
    }
  }

  lemma ParseDottedBack(a: IPv4)
    ensures ParseDotted(Dotted(a)) == Some([a.b0, a.b1, a.b2, a.b3])
  {
    hide Itoa, Scan;
    ScanDotted(a);
    var rest := Itoa(a.b1) + ("." + (Itoa(a.b2) + ("." + Itoa(a.b3))));
    ItoaDigits(a.b0);
    DigitsThenDot(Itoa(a.b0), rest);
    assert Itoa(a.b0) + "." + rest == Dotted(a);
  }

  lemma ItoaDigits(n: nat)
    ensures Itoa(n) != "" && forall c :: c in Itoa(n) ==> IsDigit(c)
  {
  }

  lemma AtoiItoa(w: Width, n: nat)
    requires n <= MaxInt(w)
    ensures Atoi(w, Itoa(n)) == Some(n)
  {
    hide Itoa, DecimalValue;
    ItoaValue(n);
    ItoaDigits(n);
    assert IsDigit(Itoa(n)[0]);
  }

  /** Parsing the printed form of an address gives the address back. */
  lemma ParsePrint(w: Width, a: IPv4)
    ensures Parse(w, Print(a)) == Address4(a)
  {
    hide Dotted, ParseDotted, Slash, Atoi, Itoa;
    var s := Dotted(a);
    ParseDottedBack(a);
    DottedHasNoSlash(a);
    SlashAt(s, Itoa(a.prefix));
    if a.prefix != 32 {
      assert Print(a) == s + "/" + Itoa(a.prefix);
      assert Print(a)[..|s|] == s;
      assert Print(a)[|s| + 1..] == Itoa(a.prefix);
      ItoaDigits(a.prefix);
      AtoiItoa(w, a.prefix);
    }
  }

  // ------------------------------------------------------------ what parses, what fails, what panics

  /** Numbers joined by dots. */
  function Render(fields: seq<uint8>): string
    requires fields != []
  {
    if |fields| == 1 then Itoa(fields[0]) else Itoa(fields[0]) + ("." + Render(fields[1..]))
  }

  lemma RenderMore(n: uint8, rest: seq<uint8>)
    requires rest != []
    ensures Render([n] + rest) == Itoa(n) + ("." + Render(rest))
  {
    assert ([n] + rest)[1..] == rest;
  }

  lemma ItoaMore(val: nat, digits: string, c: char)
    requires IsDigit(c)
    requires (digits == "" && val == 0) || (digits == Itoa(val) && !(|digits| == 1 && val == 0))
    ensures Itoa(val * 10 + DigitValue(c)) == digits + [c]
  {
    var d := DigitValue(c);
    assert Digit(d) == c;
    if digits != "" {
      assert val > 0;
      assert (val * 10 + d) / 10 == val && (val * 10 + d) % 10 == d;
    } else {
      assert "" + [c] == [c];
    }
  }

  /** One digit of the scan. */
  lemma ScanOneDigit(s: string, val: nat, digits: nat, fields: seq<uint8>)
    requires s != "" && IsDigit(s[0]) && val <= 255 && Scan(s, val, digits, fields).Some?
    ensures !(digits == 1 && val == 0) && val * 10 + DigitValue(s[0]) <= 255
    ensures Scan(s, val, digits, fields) == Scan(s[1..], val * 10 + DigitValue(s[0]), digits + 1, fields)
  {
  }

  /** One dot of the scan. */
  lemma ScanOneDot(s: string, val: nat, digits: nat, fields: seq<uint8>)
    requires s != "" && !IsDigit(s[0]) && val <= 255 && Scan(s, val, digits, fields).Some?
    ensures s[0] == '.' && digits > 0 && s[1..] != ""
    ensures Scan(s, val, digits, fields) == Scan(s[1..], 0, 0, fields + [val])
  {
  }

  lemma ScanEnd(val: nat, digits: nat, fields: seq<uint8>)
    requires val <= 255 && Scan("", val, digits, fields).Some?
    ensures Scan("", val, digits, fields).value == fields + [val]
  {
  }

  /** Whatever the scan accepts is the printed form of the fields it returns. */
  lemma {:induction false} ScanReads(s: string, val: nat, text: string, fields: seq<uint8>)
    requires val <= 255 && ((text == "" && val == 0 && s != "") || text == Itoa(val))
    requires Scan(s, val, |text|, fields).Some?
    ensures var f := Scan(s, val, |text|, fields).value;
            |fields| < |f| && f[..|fields|] == fields && text + s == Render(f[|fields|..])
    decreases |s|
  {
    hide Scan, Itoa;
    var f := Scan(s, val, |text|, fields).value;
    if s == "" {
      ScanEnd(val, |text|, fields);
      assert f[|fields|..] == [val];
      assert text + s == text;
    } else if IsDigit(s[0]) {
      ScanOneDigit(s, val, |text|, fields);
      ItoaMore(val, text, s[0]);
      ScanReads(s[1..], val * 10 + DigitValue(s[0]), text + [s[0]], fields);
      assert text + [s[0]] + s[1..] == text + s;
    } else {
      ScanOneDot(s, val, |text|, fields);
      ScanReads(s[1..], 0, "", fields + [val]);
      FieldRead(f, fields, val);
      RenderMore(val, f[|fields| + 1..]);
      assert "" + s[1..] == s[1..];
      assert text + s == text + ("." + s[1..]);
    }
  }

  lemma FieldRead(f: seq<uint8>, fields: seq<uint8>, val: uint8)
    requires |fields| + 1 < |f| && f[..|fields| + 1] == fields + [val]
    ensures f[..|fields|] == fields && f[|fields|..] == [val] + f[|fields| + 1..]
  {
    assert f[..|fields|] == f[..|fields| + 1][..|fields|];
    assert f[|fields|] == f[..|fields| + 1][|fields|];
  }

  lemma RenderFour(fields: seq<uint8>)
    requires |fields| == 4
    ensures Render(fields) == Dotted(Address(fields[0], fields[1], fields[2], fields[3], 32))
  {
    hide Itoa;
    var one, two, three := [fields[3]], [fields[2]] + [fields[3]], [fields[1]] + ([fields[2]] + [fields[3]]);
    RenderMore(fields[2], one);
    RenderMore(fields[1], two);
    RenderMore(fields[0], three);
    assert fields == [fields[0]] + three;
  }

  lemma ParseDottedReads(t: string)
    requires ParseDotted(t).Some?
    ensures |ParseDotted(t).value| == 4
    ensures var f := ParseDotted(t).value; t == Dotted(Address(f[0], f[1], f[2], f[3], 32))
  {
    hide Dotted, Render;
    var f := ParseDotted(t).value;
    assert f == Scan(t, 0, |""|, []).value;
    ScanReads(t, 0, "", []);
    assert f[0..] == f && "" + t == t;
    RenderFour(f);
  }

  /** A text is accepted as an address exactly when it is some address's dotted form. */
  lemma ParseDottedIff(t: string)
    ensures ParseDotted(t).Some? <==> IsDotted(t)
    ensures forall a: IPv4 :: t == Dotted(a) ==> ParseDotted(t) == Some([a.b0, a.b1, a.b2, a.b3])
  {
    hide Dotted, ParseDotted;
    if ParseDotted(t).Some? {
      ParseDottedReads(t);
      var f := ParseDotted(t).value;
      var a: IPv4 := Address(f[0], f[1], f[2], f[3], 32);
      assert t == Dotted(a);
    }
    forall a: IPv4 | t == Dotted(a)
      ensures ParseDotted(t) == Some([a.b0, a.b1, a.b2, a.b3])
    {
      ParseDottedBack(a);
    }
  }

  ghost predicate IsDotted(t: string) {
    exists a: IPv4 :: t == Dotted(a)
  }

  /** The text behind the first slash, if there is one. */
  function PrefixText(s: string): Option<string> {
    if Slash(s) < |s| then Some(s[Slash(s) + 1..]) else None
  }

  /** The three outcomes for texts without a colon. An error is returned exactly when there is a prefix
      and it is no integer; the parser panics exactly when the prefix is absent or an integer and either
      the address is no dotted quad or the prefix is out of range. */
  lemma ParseOutcome(w: Width, s: string)
    requires ':' !in s
    ensures Parse(w, s).SyntaxError? <==> PrefixText(s).Some? && Atoi(w, PrefixText(s).value).None?
    ensures Parse(w, s).Panic?
       <==> (PrefixText(s).None? && !IsDotted(s))
            || (PrefixText(s).Some? && Atoi(w, PrefixText(s).value).Some?
                && (!IsDotted(s[..Slash(s)]) || !(0 <= Atoi(w, PrefixText(s).value).value <= 32)))
  {
    hide Atoi, ParseDotted, Dotted;
    ParseDottedIff(s[..Slash(s)]);
    assert Slash(s) == |s| ==> s[..Slash(s)] == s;
  }

  /** A text parses to an address exactly when it is its dotted form, followed by nothing for a full
      prefix, or by a slash and any spelling of the prefix that `Atoi` accepts. */
  lemma ParseIff(w: Width, s: string, a: IPv4)
    requires ':' !in s
    ensures Parse(w, s) == Address4(a)
       <==> (a.prefix == 32 && s == Dotted(a))
            || exists t :: s == Dotted(a) + "/" + t && Atoi(w, t) == Some(a.prefix)
  {
    hide Parse, Atoi, ParseDotted, Dotted, Slash;
    if Parse(w, s) == Address4(a) {
      ParsedText(w, s, a);
    }
    if a.prefix == 32 && s == Dotted(a) {
      TextParses(w, a, "");
    }
    if t :| s == Dotted(a) + "/" + t && Atoi(w, t) == Some(a.prefix) {
      TextParses(w, a, t);
    }
  }

  lemma ParsedText(w: Width, s: string, a: IPv4)
    requires Parse(w, s) == Address4(a)
    ensures if PrefixText(s).None? then a.prefix == 32 && s == Dotted(a)
            else s == Dotted(a) + "/" + PrefixText(s).value && Atoi(w, PrefixText(s).value) == Some(a.prefix)
  {
    hide Atoi, ParseDotted, Dotted;
    var p := Slash(s);
    assert p == |s| ==> s[..p] == s;
    ParseDottedReads(s[..p]);
    var f := ParseDotted(s[..p]).value;
    DottedSame(a, Address(f[0], f[1], f[2], f[3], 32));
    assert p < |s| ==> s == s[..p] + "/" + s[p + 1..];
  }

  lemma TextParses(w: Width, a: IPv4, t: string)
    ensures a.prefix == 32 ==> Parse(w, Dotted(a)) == Address4(a)
    ensures Atoi(w, t) == Some(a.prefix) ==> Parse(w, Dotted(a) + "/" + t) == Address4(a)
  {
    hide Atoi, ParseDotted, Dotted, Slash;
    DottedHasNoSlash(a);
    SlashAt(Dotted(a), t);
    ParseDottedBack(a);
    assert (Dotted(a) + "/" + t)[..|Dotted(a)|] == Dotted(a) && (Dotted(a) + "/" + t)[|Dotted(a)| + 1..] == t;
  }

  lemma DottedSame(a: IPv4, b: IPv4)
    requires a.b0 == b.b0 && a.b1 == b.b1 && a.b2 == b.b2 && a.b3 == b.b3
    ensures Dotted(a) == Dotted(b)
  {
  }

  lemma DottedStartsWithDigit(a: IPv4)
    ensures Dotted(a) != "" && IsDigit(Dotted(a)[0])
  {
    hide Itoa;
    ItoaDigits(a.b0);
  }

  /** `ip route list` prints `default` for a default route. */
  lemma DefaultPanics(w: Width)
    ensures Parse(w, "default").Panic?
  {
    hide Parse, Dotted;
    var s := "default";
    SlashAt(s, "");
    forall a: IPv4
      ensures s != Dotted(a)
    {
      DottedStartsWithDigit(a);
    }
    ParseOutcome(w, s);
  }

  lemma SplitAtSlash(s: string, t: string)
    requires '/' !in s
    ensures PrefixText(s + "/" + t) == Some(t) && (s + "/" + t)[..Slash(s + "/" + t)] == s
  {
    SlashAt(s, t);
    assert (s + "/" + t)[|s| + 1..] == t;
  }

  /** A prefix may be a number above 32, which panics too, or no number, which is an error. */
  lemma BadPrefixes(w: Width, a: IPv4)
    ensures Parse(w, Dotted(a) + "/33").Panic?
    ensures Parse(w, Dotted(a) + "/x").SyntaxError?
  {
    hide Parse, Dotted, PrefixText, Slash, Atoi, IsDotted;
    var s := Dotted(a);
    DottedHasNoSlash(a);
    DottedHasNoColon(a);
    assert "/33" == "/" + "33" && "/x" == "/" + "x";
    assert s + "/33" == s + "/" + "33" && s + "/x" == s + "/" + "x";
    SplitAtSlash(s, "33");
    SplitAtSlash(s, "x");
    AtoiThirtyThree(w);
    ParseOutcome(w, s + "/" + "33");
    ParseOutcome(w, s + "/" + "x");
  }

  lemma DottedHasNoColon(a: IPv4)
    ensures ':' !in Dotted(a)
  {
  }

  lemma AtoiThirtyThree(w: Width)
    ensures Atoi(w, "33") == Some(33) && Atoi(w, "x") == None
  {
    assert "33"[..1] == "3" && "3"[..0] == "" && "x"[..0] == "";
    assert DecimalValue("3") == Some(3);
  }

  // ------------------------------------------------------------ numbers and examples

  function Zeros(n: nat): (z: string)
    ensures |z| == n && forall i :: 0 <= i < n ==> z[i] == '0'
  {
    seq(n, _ => '0')
  }

  lemma {:induction false} LeadingZeros(n: nat, t: string)
    requires t != ""
    ensures DecimalValue(Zeros(n) + t) == DecimalValue(t)
    decreases |t|
  {
    var s := Zeros(n) + t;
    assert s[..|s| - 1] == Zeros(n) + t[..|t| - 1];
    if |t| == 1 {
      ZerosAreZero(n);
      assert Zeros(n) + "" == Zeros(n) && t[..0] == "";
    } else {
      LeadingZeros(n, t[..|t| - 1]);
    }
  }

  lemma {:induction false} ZerosAreZero(n: nat)
    ensures DecimalValue(Zeros(n)) == Some(0)
  {
    if n > 0 {
      ZerosAreZero(n - 1);
      assert Zeros(n)[..n - 1] == Zeros(n - 1);
    }
  }

  /** A text of digits is read as the number it prints as, after any leading zeros. */
  lemma {:induction false} DecimalReads(d: string)
    requires d != "" && DecimalValue(d).Some?
    ensures |Itoa(DecimalValue(d).value)| <= |d|
    ensures d == Zeros(|d| - |Itoa(DecimalValue(d).value)|) + Itoa(DecimalValue(d).value)
  {
    hide Itoa, DecimalValue;
    var init, x := d[..|d| - 1], d[|d| - 1];
    assert d == init + [x];
    var h, l := DecimalParts(init, x);
    if init == "" {
      assert Zeros(0) == "";
    } else {
      DecimalReads(init);
      if h == 0 {
        assert init == Zeros(|init| - 1) + "0" == Zeros(|init|);
      } else {
        assert Zeros(|init| - |Itoa(h)|) + (Itoa(h) + [x]) == init + [x];
      }
    }
  }

  lemma DecimalParts(init: string, x: char) returns (h: nat, l: nat)
    requires DecimalValue(init + [x]).Some?
    ensures DecimalValue(init) == Some(h) && l < 10 && DecimalValue(init + [x]) == Some(10 * h + l)
    ensures Itoa(l) == [x] && Itoa(0) == "0" && (init == "" ==> h == 0)
    ensures h > 0 ==> Itoa(10 * h + l) == Itoa(h) + [x]
  {
    assert (init + [x])[..|init|] == init;
    h, l := DecimalValue(init).value, DigitValue(x);
    assert Digit(l) == x;
    if h > 0 {
      assert (10 * h + l) / 10 == h && (10 * h + l) % 10 == l;
    }
  }

  /** The numerals: digits with any leading zeros. */
  ghost predicate IsNumeral(d: string, n: nat) {
    |Itoa(n)| <= |d| && d == Zeros(|d| - |Itoa(n)|) + Itoa(n)
  }

  lemma NumeralIff(d: string, n: nat)
    ensures IsNumeral(d, n) <==> d != "" && DecimalValue(d) == Some(n)
  {
    hide Itoa, DecimalValue;
    if IsNumeral(d, n) {
      LeadingZeros(|d| - |Itoa(n)|, Itoa(n));
      ItoaValue(n);
    }
    if d != "" && DecimalValue(d) == Some(n) {
      DecimalReads(d);
    }
  }

  /** A prefix text is read as `v` exactly when it is a numeral of `v` with an optional sign, and `v` is
      in the range of `int`. */
  lemma AtoiIff(w: Width, s: string, v: int)
    ensures Atoi(w, s) == Some(v) <==>
              && (if w == W32 then -0x8000_0000 <= v <= 0x7FFF_FFFF else -0x8000_0000_0000_0000 <= v <= 0x7FFF_FFFF_FFFF_FFFF)
              && ((v >= 0 && (IsNumeral(s, v) || (s != "" && s[0] == '+' && IsNumeral(s[1..], v))))
                  || (v <= 0 && s != "" && s[0] == '-' && IsNumeral(s[1..], 0 - v)))
  {
    hide Itoa, DecimalValue, IsNumeral;
    if s != "" {
      if v >= 0 {
        NumeralIff(s, v);
        NumeralIff(s[1..], v);
      }
      if v <= 0 {
        NumeralIff(s[1..], 0 - v);
      }
      if s[0] == '+' || s[0] == '-' {
        SignIsNoDigit(s);
      }
    } else if v >= 0 {
      NumeralIff(s, v);
    }
  }

  lemma {:induction false} SignIsNoDigit(s: string)
    requires s != "" && !IsDigit(s[0])
    ensures DecimalValue(s).None?
  {
    if |s| > 1 {
      SignIsNoDigit(s[..|s| - 1]);
    }
  }

  lemma ShortNumbers(n: nat)
    requires n < 1000
    ensures n < 10 ==> Itoa(n) == [Digit(n)]
    ensures 10 <= n < 100 ==> Itoa(n) == [Digit(n / 10), Digit(n % 10)]
    ensures 100 <= n ==> Itoa(n) == [Digit(n / 100), Digit(n / 10 % 10), Digit(n % 10)]
  {
    if n >= 100 {
      assert n / 10 / 10 == n / 100;
    }
  }

  /** What numbers and addresses look like. */
  lemma PrintExamples()
    ensures Itoa(209) == "209"
    ensures Print(Address(1, 2, 3, 4, 32)) == "1.2.3.4" && Print(Address(1, 2, 3, 4, 8)) == "1.2.3.4/8"
  {
    hide Itoa;
    ShortNumbers(209);
    OneDigitFields(Address(1, 2, 3, 4, 32));
    OneDigitFields(Address(1, 2, 3, 4, 8));
    ShortNumbers(8);
  }

  lemma OneDigitFields(a: IPv4)
    requires a.b0 < 10 && a.b1 < 10 && a.b2 < 10 && a.b3 < 10
    ensures Dotted(a) == [Digit(a.b0), '.', Digit(a.b1), '.', Digit(a.b2), '.', Digit(a.b3)]
  {
  }

  // ------------------------------------------------------------ routes on the wire

  datatype Route = Route(table: int, iface: string, addr: IPv4)

  /** A route as the agent protocol carries it: table number as uint32, address as text. */
  datatype WireRoute = WireRoute(table: uint32, iface: string, address: string)

  function ToWire(r: Route): WireRoute {
    WireRoute(r.table % TWO_32, r.iface, Print(r.addr))
  }

  /** What loading makes of a listed route whose address does not make the parser panic: nothing
      when the prefix text is malformed. */
  function FromWire(w: Width, r: WireRoute): Option<Route>
    requires !Parse(w, r.address).Panic?
  {
    match Parse(w, r.address)
    case Address4(ip) => Some(Route(ToInt(w, r.table), r.iface, ip))
    case SyntaxError => None
  }

  /** What the agent is sent: the interface, the printed address, and the table number itself when it is
      an unsigned 32-bit number. */
  lemma WireShows(r: Route)
    ensures ToWire(r).iface == r.iface && ToWire(r).address == Print(r.addr)
    ensures 0 <= r.table < 0x1_0000_0000 ==> ToWire(r).table == r.table
  {
    hide Print;
    if 0 <= r.table < TWO_32 {
      ModWrap(r.table, TWO_32);
    }
  }

  /** Exactly which route a listed line is read as. */
  lemma FromWireIff(w: Width, line: WireRoute, r: Route)
    requires !Parse(w, line.address).Panic?
    ensures FromWire(w, line) == Some(r) <==>
              && Parse(w, line.address) == Address4(r.addr) && r.iface == line.iface
              && r.table == (if w == W32 && line.table >= 0x8000_0000 then line.table - 0x1_0000_0000 else line.table)
  {
    hide Parse;
  }

  /** Values of Go's `int`. */
  predicate IsInt(w: Width, x: int) {
    0 - MaxInt(w) - 1 <= x <= MaxInt(w)
  }

  /** The uint32 field of the protocol and back to `int`. */
  lemma TableRoundTripIff(w: Width, t: int)
    requires IsInt(w, t)
    ensures ToInt(w, t % TWO_32) == t <==> (w == W64 ==> 0 <= t < TWO_32)
  {
    if 0 <= t < TWO_32 {
      ModWrap(t, TWO_32);
    } else if w == W32 {
      ModPeriod(t + TWO_32, TWO_32);
      ModWrap(t + TWO_32, TWO_32);
    }
  }

  /** A route sent to the agent and listed back is the same route exactly when its table number
      survives the trip: always on a 32-bit build, in 0 .. 2^32 - 1 on a 64-bit one. */
  lemma WireRoundTripIff(w: Width, r: Route)
    requires IsInt(w, r.table)
    ensures !Parse(w, ToWire(r).address).Panic?
    ensures FromWire(w, ToWire(r)) == Some(r) <==> (w == W64 ==> 0 <= r.table < TWO_32)
  {
    hide Parse, Print;
    ParsePrint(w, r.addr);
    TableRoundTripIff(w, r.table);
  }
}
