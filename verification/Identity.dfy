// Normalised customer identities, as migration 109 computes them.

module Identity {
  import opened Basics
  import opened Text
  import opened Decimal

  const COUNTRY_CODE := "234"

  // ---------------------------------------------------------- str methods

  function StripLeft(s: string): string {
    if s != "" && IsSpace(s[0]) then StripLeft(s[1..]) else s
  }

  function StripRight(s: string): string {
    if s != "" && IsSpace(s[|s| - 1]) then StripRight(s[..|s| - 1]) else s
  }

  function Strip(s: string): string { StripRight(StripLeft(s)) }

  function LowerChar(c: char): char {
    if 'A' <= c <= 'Z' then (c as int - 'A' as int + 'a' as int) as char else c
  }

  function Lower(s: string): string {
    seq(|s|, i requires 0 <= i < |s| => LowerChar(s[i]))
  }

  // re.sub(r"\D", "", s)
  function Digits(s: string): (d: string)
    ensures AllDigits(d)
  {
    if s == "" then ""
    else (if IsDigit(s[0]) then [s[0]] else "") + Digits(s[1..])
  }

  function OrEmpty(value: Option<string>): string {
    if value.Some? then value.value else ""
  }

  // ---------------------------------------------------------- normalisation

  function NormalizeEmail(value: Option<string>): Option<string> {
    var normalized := Lower(Strip(OrEmpty(value)));
    if normalized == "" then None else Some(normalized)
  }

  function WithoutChannelPrefix(raw: string): string {
    if "whatsapp:" <= Lower(raw) then Strip(raw[9..]) else raw
  }

  function NormalizePhone(value: Option<string>): Option<string> {
    var stripped := Strip(OrEmpty(value));
    if stripped == "" then None
    else
      var raw := WithoutChannelPrefix(stripped);
      var digits := Digits(raw);
      if digits == "" then None else Some("+" + Significant("+" <= raw, digits))
  }

  // The digits behind the plus sign of the result.
  function Significant(hasPlus: bool, digits: string): string {
    if hasPlus then digits
    else if "00" <= digits then digits[2..]
    else if "0" <= digits && |digits| >= 10 then COUNTRY_CODE + digits[1..]
    else if COUNTRY_CODE <= digits then digits
    else digits
  }

  // ---------------------------------------------------------- what it gives

  lemma {:induction false} StripTight(s: string)
    requires s == "" || (!IsSpace(s[0]) && !IsSpace(s[|s| - 1]))
    ensures Strip(s) == s
  {
  }

  lemma {:induction false} DigitsOf(s: string)
    requires AllDigits(s)
    ensures Digits(s) == s
  {
    if s != "" {
      DigitsOf(s[1..]);
      assert s == [s[0]] + s[1..];
    }
  }

  // A text of digits, possibly after one plus sign, is read as it stands.
  lemma DigitText(d: string, plus: bool)
    requires AllDigits(d) && d != ""
    ensures var raw := (if plus then "+" else "") + d;
            Strip(raw) == raw && WithoutChannelPrefix(raw) == raw && Digits(raw) == d
            && ("+" <= raw <==> plus)
  {
    if plus { PlusText(d); } else { PlainText(d); }
    assert "" + d == d;
  }

  lemma PlainText(d: string)
    requires AllDigits(d) && d != ""
    ensures Strip(d) == d && WithoutChannelPrefix(d) == d && Digits(d) == d && !("+" <= d)
  {
    StripTight(d);
    DigitsOf(d);
    NotChannelPrefixed(d);
  }

  lemma PlusText(d: string)
    requires AllDigits(d) && d != ""
    ensures var raw := "+" + d;
            Strip(raw) == raw && WithoutChannelPrefix(raw) == raw && Digits(raw) == d
  {
    var raw := "+" + d;
    StripTight(raw);
    DigitsOf(d);
    assert raw[1..] == d;
    NotChannelPrefixed(raw);
  }

  lemma NotChannelPrefixed(raw: string)
    requires raw != "" && (IsDigit(raw[0]) || raw[0] == '+')
    ensures WithoutChannelPrefix(raw) == raw
  {
    assert Lower(raw)[0] == raw[0];
  }

  lemma PhoneOfDigits(d: string, plus: bool)
    requires AllDigits(d) && d != ""
    ensures NormalizePhone(Some((if plus then "+" else "") + d)) == Some("+" + Significant(plus, d))
  {
    DigitText(d, plus);
  }

  lemma SignificantDigits(hasPlus: bool, digits: string)
    requires AllDigits(digits)
    ensures AllDigits(Significant(hasPlus, digits))
  {
    assert AllDigits(COUNTRY_CODE);
  }

  // Every normalised number is a plus sign followed by digits.
  lemma PhoneShape(value: Option<string>)
    ensures var n := NormalizePhone(value);
            n.Some? ==> |n.value| >= 1 && n.value[0] == '+' && AllDigits(n.value[1..])
  {
    if NormalizePhone(value).Some? {
      var raw := WithoutChannelPrefix(Strip(OrEmpty(value)));
      SignificantDigits("+" <= raw, Digits(raw));
      assert NormalizePhone(value).value[1..] == Significant("+" <= raw, Digits(raw));
    }
  }

  lemma ResultIsFixpointIffDigits(value: Option<string>)
    requires NormalizePhone(value).Some?
    ensures var r := NormalizePhone(value).value;
            && (NormalizePhone(Some(r)) == Some(r) <==> r != "+")
            && (r == "+" <==> NormalizePhone(Some(r)) == None)
  {
    PhoneShape(value);
    var r := NormalizePhone(value).value;
    if r != "+" {
      PhoneOfDigits(r[1..], true);
      assert r == "+" + r[1..];
    } else {
      PlusAloneIsNothing();
    }
  }

  lemma PlusAloneIsNothing()
    ensures NormalizePhone(Some("+")) == None
  {
    StripTight("+");
    assert Lower("+")[0] == '+';
    assert Digits("+") == Digits(""[..]);
  }

  // Normalising again changes nothing except for the inputs that hold no digit
  // but two zeros and no leading plus sign: those lose both to the exit code.
  lemma PhoneIsFixpointExactly(value: Option<string>)
    ensures var raw := WithoutChannelPrefix(Strip(OrEmpty(value)));
            NormalizePhone(NormalizePhone(value)) == NormalizePhone(value)
            <==> !(!("+" <= raw) && Digits(raw) == "00")
  {
    var stripped := Strip(OrEmpty(value));
    var raw := WithoutChannelPrefix(stripped);
    if NormalizePhone(value).Some? {
      ResultIsFixpointIffDigits(value);
      BarePlusExactly("+" <= raw, Digits(raw));
    } else {
      assert stripped == "" ==> Lower(stripped) == "";
    }
  }

  lemma BarePlusExactly(hasPlus: bool, digits: string)
    requires digits != ""
    ensures "+" + Significant(hasPlus, digits) == "+" <==> !hasPlus && digits == "00"
  {
    assert ("+" + Significant(hasPlus, digits))[1..] == Significant(hasPlus, digits);
  }

  lemma TwoZerosGiveBarePlus()
    ensures NormalizePhone(Some("00")) == Some("+") && NormalizePhone(Some("+")) == None
  {
    var d := "00";
    assert AllDigits(d) && "" + d == d;
    PhoneOfDigits(d, false);
    BarePlusExactly(false, d);
    PlusAloneIsNothing();
  }

  // The four spellings of one national number agree, provided it has nine
  // digits or more; a shorter one keeps its leading zero, and they differ.
  lemma SpellingsAgree(d: string)
    requires AllDigits(d) && d != "" && d[0] != '0'
    ensures NormalizePhone(Some("234" + d)) == Some("+234" + d)
    ensures NormalizePhone(Some("00234" + d)) == Some("+234" + d)
    ensures NormalizePhone(Some("+234" + d)) == Some("+234" + d)
    ensures NormalizePhone(Some("0" + d)) == Some("+234" + d) <==> |d| >= 9
  {
    CountrySpelling(d);
    ExitCodeSpelling(d);
    PlusSpelling(d);
    TrunkSpelling(d);
  }

  lemma CountrySpelling(d: string)
    requires AllDigits(d)
    ensures NormalizePhone(Some("234" + d)) == Some("+234" + d)
  {
    var n := "234" + d;
    assert AllDigits(n) && n[0] == '2';
    assert "" + n == n && "+" + n == "+234" + d;
    PhoneOfDigits(n, false);
  }

  lemma ExitCodeSpelling(d: string)
    requires AllDigits(d)
    ensures NormalizePhone(Some("00234" + d)) == Some("+234" + d)
  {
    CountryParts(d);
    ExitCodeDropped("234" + d);
  }

  lemma CountryParts(d: string)
    requires AllDigits(d)
    ensures AllDigits("234" + d)
    ensures "00" + ("234" + d) == "00234" + d && "+" + ("234" + d) == "+234" + d
  {
  }

  lemma ExitCodeDropped(n: string)
    requires AllDigits(n)
    ensures NormalizePhone(Some("00" + n)) == Some("+" + n)
  {
    var all := "00" + n;
    assert all[..2] == "00" && all[2..] == n && "" + all == all;
    PhoneOfDigits(all, false);
  }

  lemma PlusSpelling(d: string)
    requires AllDigits(d)
    ensures NormalizePhone(Some("+234" + d)) == Some("+234" + d)
  {
    CountryParts(d);
    PhoneOfDigits("234" + d, true);
  }

  lemma TrunkSpelling(d: string)
    requires AllDigits(d) && d != "" && d[0] != '0'
    ensures NormalizePhone(Some("0" + d)) == Some("+234" + d) <==> |d| >= 9
  {
    assert AllDigits("0" + d) && "" + ("0" + d) == "0" + d;
    PhoneOfDigits("0" + d, false);
    TrunkPrefix(d);
  }

  lemma TrunkPrefix(d: string)
    requires AllDigits(d) && d != "" && d[0] != '0'
    ensures "+" + Significant(false, "0" + d) == "+234" + d <==> |d| >= 9
  {
    var t := "0" + d;
    assert t[1] == d[0] && t[1..] == d && t[0] == '0';
    assert ("+" + t)[1] == '0' && ("+234" + d)[1] == '2';
    assert "+" + (COUNTRY_CODE + d) == "+234" + d;
  }

  lemma {:induction false} StripRightKeepsFront(s: string)
    ensures StripRight(s) <= s
    ensures StripRight(s) == "" || !IsSpace(StripRight(s)[|StripRight(s)| - 1])
  {
    if s != "" && IsSpace(s[|s| - 1]) { StripRightKeepsFront(s[..|s| - 1]); }
  }

  lemma {:induction false} StripLeftMeaning(s: string)
    ensures StripLeft(s) == "" || !IsSpace(StripLeft(s)[0])
  {
    if s != "" && IsSpace(s[0]) { StripLeftMeaning(s[1..]); }
  }

  // Lower-casing and stripping twice is doing it once.
  lemma EmailIsFixpoint(value: Option<string>)
    requires NormalizeEmail(value).Some?
    ensures NormalizeEmail(NormalizeEmail(value)) == NormalizeEmail(value)
  {
    var t := Strip(OrEmpty(value));
    StripLeftMeaning(OrEmpty(value));
    StripRightKeepsFront(StripLeft(OrEmpty(value)));
    LowerOfTight(t);
    StripTight(Lower(t));
  }

  lemma LowerOfTight(t: string)
    requires t != "" && !IsSpace(t[0]) && !IsSpace(t[|t| - 1])
    ensures var r := Lower(t);
            r != "" && !IsSpace(r[0]) && !IsSpace(r[|r| - 1]) && Lower(r) == r
  {
  }

  // ---------------------------------------------------------- channel prefix

  lemma {:induction false} StripRightOfSum(p: string, t: string)
    ensures StripRight(p + t) == if StripRight(t) == "" then StripRight(p) else p + StripRight(t)
  {
    if t == "" {
      assert p + t == p;
    } else if IsSpace(t[|t| - 1]) {
      assert (p + t)[..|p + t| - 1] == p + t[..|t| - 1];
      StripRightOfSum(p, t[..|t| - 1]);
    }
  }

  lemma {:induction false} StripsCommute(s: string)
    ensures StripLeft(StripRight(s)) == StripRight(StripLeft(s))
  {
    if s != "" {
      var first, rest := [s[0]], s[1..];
      assert s == first + rest;
      StripRightOfSum(first, rest);
      if IsSpace(s[0]) {
        StripsCommute(rest);
        assert StripRight(first) == StripRight("");
        assert (first + StripRight(rest))[1..] == StripRight(rest);
      }
    }
  }

  lemma StripIgnoresRightBlanks(s: string)
    ensures Strip(StripRight(s)) == Strip(s)
  {
    StripsCommute(s);
    StripRightKeepsFront(StripLeft(s));
  }

  // A channel prefix in any letter case is ignored, whatever blanks and
  // separators follow it. Only one is taken off, so the text behind it must
  // not carry another.
  lemma ChannelPrefixIgnored(prefix: string, text: string)
    requires Lower(prefix) == "whatsapp:"
    requires !("whatsapp:" <= Lower(Strip(text)))
    ensures NormalizePhone(Some(prefix + text)) == NormalizePhone(Some(text))
  {
    StripOfPrefixed(prefix, text);
    var stripped := prefix + StripRight(text);
    assert Lower(stripped)[..9] == Lower(prefix);
    assert stripped[9..] == StripRight(text);
    StripIgnoresRightBlanks(text);
    assert WithoutChannelPrefix(stripped) == Strip(text);
  }

  lemma StripOfPrefixed(prefix: string, text: string)
    requires Lower(prefix) == "whatsapp:"
    ensures |prefix| == 9 && Strip(prefix + text) == prefix + StripRight(text)
  {
    assert |prefix| == |Lower(prefix)|;
    assert LowerChar(prefix[0]) == Lower(prefix)[0] == 'w';
    assert LowerChar(prefix[8]) == Lower(prefix)[8] == ':';
    StripRightOfSum(prefix, text);
    assert prefix + "" == prefix;
  }

  // ---------------------------------------------------------- on the characters

  lemma {:induction false} StripLeftAt(s: string) returns (i: nat)
    ensures i <= |s| && StripLeft(s) == s[i..]
    ensures forall k :: 0 <= k < i ==> IsSpace(s[k])
    ensures i < |s| ==> !IsSpace(s[i])
  {
    i := 0;
    if s != "" && IsSpace(s[0]) {
      i := StripLeftAt(s[1..]);
      i := i + 1;
      assert forall k :: 0 < k < i ==> s[k] == s[1..][k - 1];
    }
  }

  lemma {:induction false} StripRightAt(s: string) returns (j: nat)
    ensures j <= |s| && StripRight(s) == s[..j]
    ensures forall k :: j <= k < |s| ==> IsSpace(s[k])
    ensures j > 0 ==> !IsSpace(s[j - 1])
  {
    j := |s|;
    if s != "" && IsSpace(s[|s| - 1]) { j := StripRightAt(s[..|s| - 1]); }
  }

  // str.strip() takes the blanks off both ends and nothing else.
  lemma StripExactly(s: string)
    ensures IsTrimmed(s, Strip(s), IsSpace)
  {
    var i := StripLeftAt(s);
    var j := StripRightAt(s[i..]);
    assert Strip(s) == s[i..i + j];
    assert forall k :: i + j <= k < |s| ==> s[k] == s[i..][k - i];
    assert TrimmedAt(s, i, i + j, IsSpace);
  }

  // ASCII letters get their small form, everything else stays.
  ghost predicate IsLowered(s: string, r: string) {
    && |r| == |s|
    && forall k :: 0 <= k < |s| ==>
         r[k] == if 'A' <= s[k] <= 'Z' then (s[k] as int + 32) as char else s[k]
  }

  // The digits of a text at their places, in order and all of them.
  ghost predicate ListsDigits(s: string, d: string, places: seq<nat>) {
    && |places| == |d|
    && (forall k :: 0 <= k < |d| ==> places[k] < |s| && s[places[k]] == d[k] && '0' <= d[k] <= '9')
    && (forall j, k :: 0 <= j < k < |d| ==> places[j] < places[k])
    && (forall i :: 0 <= i < |s| && '0' <= s[i] <= '9' ==> i in places)
  }

  lemma {:induction false} DigitsExactly(s: string) returns (places: seq<nat>)
    ensures ListsDigits(s, Digits(s), places)
  {
    places := [];
    if s != "" {
      var front := s[..|s| - 1];
      places := DigitsExactly(front);
      DigitsOfSum(front, [s[|s| - 1]]);
      assert s == front + [s[|s| - 1]];
      if IsDigit(s[|s| - 1]) { places := places + [|s| - 1]; }
    }
  }

  lemma Associative(x: string, y: string, z: string)
    ensures x + y + z == x + (y + z)
  {
  }

  lemma {:induction false} DigitsOfSum(a: string, b: string)
    ensures Digits(a + b) == Digits(a) + Digits(b)
  {
    if a == "" {
      assert a + b == b;
    } else {
      DigitsOfSum(a[1..], b);
      assert (a + b)[1..] == a[1..] + b && (a + b)[0] == a[0];
      Associative(if IsDigit(a[0]) then [a[0]] else "", Digits(a[1..]), Digits(b));
    }
  }

  // The normalised address is the address without the blanks around it, in
  // small letters; an address of blanks has none.
  lemma EmailExactly(value: Option<string>) returns (trimmed: string)
    ensures IsTrimmed(if value.Some? then value.value else "", trimmed, IsSpace)
    ensures if trimmed == "" then NormalizeEmail(value) == None
            else NormalizeEmail(value).Some? && IsLowered(trimmed, NormalizeEmail(value).value)
  {
    StripExactly(OrEmpty(value));
    trimmed := Strip(OrEmpty(value));
  }

  // The text behind a channel prefix, or the text itself.
  ghost predicate IsNumberText(trimmed: string, raw: string) {
    if |trimmed| >= 9 && IsLowered(trimmed[..9], "whatsapp:") then IsTrimmed(trimmed[9..], raw, IsSpace)
    else raw == trimmed
  }

  lemma NumberTextExactly(trimmed: string)
    ensures IsNumberText(trimmed, WithoutChannelPrefix(trimmed))
  {
    if |trimmed| >= 9 {
      assert Lower(trimmed)[..9] == Lower(trimmed[..9]);
      assert "whatsapp:" <= Lower(trimmed) <==> Lower(trimmed)[..9] == "whatsapp:";
      assert IsLowered(trimmed[..9], Lower(trimmed[..9]));
      LoweredUnique(trimmed[..9], Lower(trimmed[..9]), "whatsapp:");
      StripExactly(trimmed[9..]);
    }
  }

  lemma LoweredUnique(s: string, a: string, b: string)
    requires IsLowered(s, a)
    ensures IsLowered(s, b) <==> a == b
  {
  }

  // The normalised number on the characters of the input: take off the blanks
  // and one channel prefix, keep the digits in order, and turn an exit code or
  // a trunk zero, where there is no plus sign, into the country's form.
  lemma PhoneExactly(value: Option<string>)
    returns (trimmed: string, raw: string, d: string, places: seq<nat>)
    ensures IsTrimmed(if value.Some? then value.value else "", trimmed, IsSpace)
    ensures IsNumberText(trimmed, raw) && ListsDigits(raw, d, places)
    ensures NormalizePhone(value) ==
            if d == "" then None
            else if raw != "" && raw[0] == '+' then Some("+" + d)
            else if |d| >= 2 && d[0] == '0' && d[1] == '0' then Some("+" + d[2..])
            else if |d| >= 10 && d[0] == '0' then Some("+234" + d[1..])
            else Some("+" + d)
  {
    trimmed := Strip(OrEmpty(value));
    raw := WithoutChannelPrefix(trimmed);
    d := Digits(raw);
    StripExactly(OrEmpty(value));
    NumberTextExactly(trimmed);
    places := DigitsExactly(raw);
    if d != "" { assert "+234" + d[1..] == "+" + (COUNTRY_CODE + d[1..]); }
  }
}
