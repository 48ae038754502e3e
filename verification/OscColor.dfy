/** What an OSC string says about the background colour (tn_parse_color and
    tn_process_osc in FreeBSD/terminal_notify.h). */
module OscColor {
  import opened Wrappers

  const ULONG_MAX := 0xFFFF_FFFF_FFFF_FFFF
  const UINT := 0x1_0000_0000

  datatype Rgb = Rgb(r: nat, g: nat, b: nat)

  // ---------------------------------------------------------------- hexadecimal

  function HexDigit(c: char): int {
    if '0' <= c <= '9' then c as int - '0' as int
    else if 'a' <= c <= 'f' then c as int - 'a' as int + 10
    else if 'A' <= c <= 'F' then c as int - 'A' as int + 10
    else -1
  }

  predicate Hex(c: char) {
    HexDigit(c) >= 0
  }

  predicate Blank(c: char) {
    c == ' ' || '\t' <= c <= '\r'
  }

  /** The value of the digits at the start, after others worth acc, and how many there are. */
  function Digits(s: string, acc: nat): (r: (nat, nat))
    ensures r.1 <= |s|
  {
    if s != "" && Hex(s[0]) then
      var (v, n) := Digits(s[1..], 16 * acc + HexDigit(s[0]));
      (v, n + 1)
    else (acc, 0)
  }

  /** A prefix 0x counts if a digit follows it. */
  function Unsigned(s: string): (r: (nat, nat))
    ensures r.1 <= |s|
  {
    if |s| >= 3 && s[0] == '0' && (s[1] == 'x' || s[1] == 'X') && Hex(s[2]) then
      var (v, n) := Digits(s[2..], 0);
      (v, n + 2)
    else Digits(s, 0)
  }

  function Signed(s: string): (r: (nat, nat))
    ensures r.1 <= |s|
  {
    if s != "" && (s[0] == '-' || s[0] == '+') then
      var (v, n) := Unsigned(s[1..]);
      if n == 0 then (0, 0)
      else if s[0] == '-' && 0 < v <= ULONG_MAX then (ULONG_MAX + 1 - v, n + 1)
      else (Capped(v), n + 1)
    else
      var (v, n) := Unsigned(s);
      (Capped(v), n)
  }

  function Capped(v: nat): nat {
    if v > ULONG_MAX then ULONG_MAX else v
  }

  /** strtoul to base 16: the value and the number of characters used, 0 if there is no number. */
  function Strtoul(s: string): (r: (nat, nat))
    ensures r.1 <= |s|
  {
    if s != "" && Blank(s[0]) then
      var (v, n) := Strtoul(s[1..]);
      if n == 0 then (0, 0) else (v, n + 1)
    else Signed(s)
  }

  // -------------------------------------------------------------------- colours

  /** strtoul on two characters, cast to a 32-bit unsigned. */
  function Component(a: char, b: char): nat {
    Strtoul([a, b]).0 % UINT
  }

  /** A number that a slash follows: its low eight bits, and what is behind the slash. */
  function Channel(s: string): Option<(nat, string)> {
    var (v, n) := Strtoul(s);
    if n == 0 || n == |s| || s[n] != '/' then None else Some((v % 256, s[n + 1..]))
  }

  /** rgb:RR/GG/BB, #RRGGBB or #RGB. Only the first form is cut to eight bits. */
  function ParseColor(s: string): Option<Rgb> {
    if "rgb:" <= s then
      match Channel(s[4..])
      case None => None
      case Some((r, p)) =>
        match Channel(p)
        case None => None
        case Some((g, q)) =>
          var (b, n) := Strtoul(q);
          if n == 0 then None else Some(Rgb(r, g, b % 256))
    else if s != "" && s[0] == '#' then
      if |s| == 7 then Some(Rgb(Component(s[1], s[2]), Component(s[3], s[4]), Component(s[5], s[6])))
      else if |s| == 4 then Some(Rgb(Component(s[1], s[1]), Component(s[2], s[2]), Component(s[3], s[3])))
      else None
    else None
  }

  /** Nothing else is read as a colour: what starts with # must have the length of six
      digits or three, and anything else the X11 prefix and slashes. */
  lemma OtherColorsAreRefused(s: string)
    ensures s != "" && s[0] == '#' ==> (ParseColor(s).Some? <==> |s| == 7 || |s| == 4)
    ensures !(s != "" && s[0] == '#') && ParseColor(s).Some? ==> "rgb:" <= s && '/' in s
  {
    assert "rgb:"[0] == 'r' && ("rgb:" <= s ==> s[0] == "rgb:"[0]);
    if "rgb:" <= s && ParseColor(s).Some? {
      var p := s[4..];
      assert p[Strtoul(p).1] == s[4 + Strtoul(p).1];
    }
  }

  function HexChar(n: nat): (c: char)
    requires n < 16
    ensures HexDigit(c) == n && c != 'x' && c != 'X' && c != '/'
  {
    if n < 10 then '0' + n as char else 'a' + (n - 10) as char
  }

  function Hex2(n: nat): string
    requires n < 256
  {
    [HexChar(n / 16), HexChar(n % 16)]
  }

  /** Two digits, and then the end or something that is no digit. */
  lemma TwoDigits(a: char, b: char, rest: string)
    requires Hex(a) && Hex(b) && (rest == "" || !Hex(rest[0]))
    ensures Strtoul([a, b] + rest) == (16 * HexDigit(a) + HexDigit(b), 2)
  {
    var s := [a, b] + rest;
    assert s[0] == a && s[1] == b && s[1..] == [b] + rest && s[1..][1..] == rest;
    assert Digits(rest, 16 * HexDigit(a) + HexDigit(b)).1 == 0;
    assert Digits([b] + rest, HexDigit(a)) == (16 * HexDigit(a) + HexDigit(b), 1);
  }

  lemma Hex2Read(n: nat, rest: string)
    requires n < 256 && (rest == "" || !Hex(rest[0]))
    ensures Strtoul(Hex2(n) + rest) == (n, 2)
  {
    TwoDigits(HexChar(n / 16), HexChar(n % 16), rest);
  }

  lemma ChannelRead(n: nat, rest: string)
    requires n < 256
    ensures Channel(Hex2(n) + "/" + rest) == Some((n, rest))
  {
    var s := Hex2(n) + "/" + rest;
    assert s == Hex2(n) + ("/" + rest);
    Hex2Read(n, "/" + rest);
    assert s[2] == '/' && s[3..] == rest;
  }

  lemma ComponentRead(a: char, b: char)
    requires Hex(a) && Hex(b)
    ensures Component(a, b) == 16 * HexDigit(a) + HexDigit(b)
  {
    TwoDigits(a, b, "");
    assert [a, b] + "" == [a, b];
  }

  /** Colours written as terminals write them come back: in the long form, */
  lemma XFormRoundTrip(r: nat, g: nat, b: nat)
    requires r < 256 && g < 256 && b < 256
    ensures ParseColor("rgb:" + (Hex2(r) + "/" + (Hex2(g) + "/" + Hex2(b)))) == Some(Rgb(r, g, b))
  {
    hide Strtoul, Channel, Hex2;
    var q := Hex2(g) + "/" + Hex2(b);
    var p := Hex2(r) + "/" + q;
    assert ("rgb:" + p)[4..] == p;
    ChannelRead(r, q);
    ChannelRead(g, Hex2(b));
    Hex2Read(b, "");
    assert Hex2(b) + "" == Hex2(b);
  }

  lemma PairRead(n: nat)
    requires n < 256
    ensures Component(HexChar(n / 16), HexChar(n % 16)) == n
  {
    ComponentRead(HexChar(n / 16), HexChar(n % 16));
  }

  lemma SixDigits(s: string)
    requires |s| == 7 && s[0] == '#'
    ensures ParseColor(s) == Some(Rgb(Component(s[1], s[2]), Component(s[3], s[4]), Component(s[5], s[6])))
  {
    hide Component, Strtoul, Channel;
    assert "rgb:"[0] != s[0];
  }

  lemma ThreeDigits(s: string)
    requires |s| == 4 && s[0] == '#'
    ensures ParseColor(s) == Some(Rgb(Component(s[1], s[1]), Component(s[2], s[2]), Component(s[3], s[3])))
  {
    hide Component, Strtoul, Channel;
    assert "rgb:"[0] != s[0];
  }

  /** with a number sign, */
  lemma HexFormRoundTrip(r: nat, g: nat, b: nat)
    requires r < 256 && g < 256 && b < 256
    ensures ParseColor("#" + Hex2(r) + Hex2(g) + Hex2(b)) == Some(Rgb(r, g, b))
  {
    hide ParseColor, Component, HexChar;
    var s := "#" + Hex2(r) + Hex2(g) + Hex2(b);
    assert s == ['#', HexChar(r / 16), HexChar(r % 16), HexChar(g / 16), HexChar(g % 16), HexChar(b / 16), HexChar(b % 16)];
    SixDigits(s);
    PairRead(r);
    PairRead(g);
    PairRead(b);
  }

  /** and in the short form, where each digit stands for two. */
  lemma ShortFormDoubles(r: nat, g: nat, b: nat)
    requires r < 16 && g < 16 && b < 16
    ensures ParseColor("#" + [HexChar(r), HexChar(g), HexChar(b)]) == Some(Rgb(17 * r, 17 * g, 17 * b))
  {
    hide ParseColor, Component;
    var s := "#" + [HexChar(r), HexChar(g), HexChar(b)];
    assert s == ['#', HexChar(r), HexChar(g), HexChar(b)];
    ThreeDigits(s);
    ComponentRead(HexChar(r), HexChar(r));
    ComponentRead(HexChar(g), HexChar(g));
    ComponentRead(HexChar(b), HexChar(b));
  }

  predicate MinusDigit(a: char, b: char) {
    a == '-' && HexDigit(b) > 0
  }

  /** Two characters give an eight-bit value, except a minus sign and a digit that is not 0. */
  lemma ComponentRange(a: char, b: char)
    ensures Component(a, b) < 256 <==> !MinusDigit(a, b)
  {
    hide Component;
    if Hex(a) && Hex(b) {
      ComponentRead(a, b);
    } else if Hex(a) {
      DigitThenOther(a, b);
    } else {
      NoDigitFirst(a, b);
    }
  }

  lemma OneDigit(b: char)
    ensures Unsigned([b]) == if Hex(b) then (HexDigit(b), 1) else (0, 0)
    ensures Signed([b]) == Unsigned([b]) && Strtoul([b]) == Unsigned([b])
  {
    assert [b][1..] == "";
    assert Unsigned("") == (0, 0) && Strtoul("") == (0, 0);
    assert Unsigned([b]) == Digits([b], 0);
  }

  lemma DigitThenOther(a: char, b: char)
    requires Hex(a) && !Hex(b)
    ensures Component(a, b) == HexDigit(a)
  {
    assert [a, b][1..] == [b];
    assert Digits([b], HexDigit(a)) == (HexDigit(a), 0);
    assert Strtoul([a, b]) == (HexDigit(a), 1);
  }

  lemma NoDigitFirst(a: char, b: char)
    requires !Hex(a)
    ensures Component(a, b) < 256 <==> !MinusDigit(a, b)
  {
    hide Digits;
    OneDigit(b);
    assert [a, b][1..] == [b];
    if !Blank(a) && a != '-' && a != '+' {
      OtherFirst(a, b);
    }
  }

  lemma OtherFirst(a: char, b: char)
    requires !Hex(a) && !Blank(a) && a != '-' && a != '+'
    ensures Component(a, b) == 0
  {
    assert Strtoul([a, b]) == (0, 0);
  }

  /** A colour's components are bytes, as documented, unless it is written #RRGGBB with such a pair. */
  lemma ComponentsAreBytes(s: string)
    requires ParseColor(s).Some?
    ensures (var c := ParseColor(s).value; c.r < 256 && c.g < 256 && c.b < 256) <==>
            !(|s| == 7 && s[0] == '#' && (MinusDigit(s[1], s[2]) || MinusDigit(s[3], s[4]) || MinusDigit(s[5], s[6])))
  {
    if s[0] == '#' {
      if |s| == 7 {
        ComponentRange(s[1], s[2]);
        ComponentRange(s[3], s[4]);
        ComponentRange(s[5], s[6]);
      } else {
        ComponentRange(s[1], s[1]);
        ComponentRange(s[2], s[2]);
        ComponentRange(s[3], s[3]);
      }
    }
  }

  /** Such a colour is #-1-1-1. */
  lemma NegativeComponent()
    ensures ParseColor("#-1-1-1").Some?
    ensures var c := ParseColor("#-1-1-1").value; c.r >= 256 && c.g >= 256 && c.b >= 256
  {
    ComponentRange('-', '1');
  }

  // ------------------------------------------------------------- what an OSC string does

  datatype Effect = Nothing | Set(color: Rgb) | Reset

  /** The string C sees: up to the first NUL. */
  function CString(s: string): (r: string)
    ensures r <= s && '\0' !in r && (|r| < |s| ==> s[|r|] == '\0')
  {
    if s == "" || s[0] == '\0' then "" else [s[0]] + CString(s[1..])
  }

  /** A NUL written behind the payload ends it. */
  lemma {:induction false} NulEnds(s: string, n: nat)
    requires n < |s| && s[n] == '\0'
    ensures CString(s) == CString(s[..n])
  {
    if n > 0 && s[0] != '\0' {
      NulEnds(s[1..], n - 1);
      assert s[1..][..n - 1] == s[..n][1..];
    }
  }

  lemma {:induction false} NoNul(s: string)
    requires '\0' !in s
    ensures CString(s) == s
  {
    if s != "" {
      assert s[0] in s && forall c :: c in s[1..] ==> c in s;
      NoNul(s[1..]);
    }
  }

  function EffectOf(payload: string): Effect {
    var s := CString(payload);
    if s == "11" then Nothing
    else if "11;" <= s then
      match ParseColor(s[3..])
      case None => Nothing
      case Some(c) => if s == "11;?" then Nothing else Set(c)
    else if "111" <= s && (|s| == 3 || s[3] == ';') then Reset
    else Nothing
  }

  function Effects(ps: seq<string>): (es: seq<Effect>)
    ensures |es| == |ps|
  {
    if ps == [] then [] else Effects(ps[..|ps| - 1]) + [EffectOf(ps[|ps| - 1])]
  }

  lemma EffectsSnoc(ps: seq<string>, p: string)
    ensures Effects(ps + [p]) == Effects(ps) + [EffectOf(p)]
  {
    assert (ps + [p])[..|ps|] == ps;
  }

  /** The background colour after some OSC strings, if one is set. */
  function Background(es: seq<Effect>): Option<Rgb> {
    if es == [] then None
    else
      match es[|es| - 1]
      case Nothing => Background(es[..|es| - 1])
      case Set(c) => Some(c)
      case Reset => None
  }

  lemma BackgroundSnoc(es: seq<Effect>, e: Effect)
    ensures Background(es + [e]) == match e case Nothing => Background(es) case Set(c) => Some(c) case Reset => None
  {
    assert (es + [e])[..|es|] == es;
  }

  /** An effect after which there is no other. */
  ghost predicate LastEffect(es: seq<Effect>, i: int) {
    && 0 <= i < |es|
    && !es[i].Nothing?
    && forall j :: i < j < |es| ==> es[j].Nothing?
  }

  /** The colour is that of the last OSC 11 set; there is none if none came or a reset came after it. */
  lemma {:induction false} BackgroundIsLast(es: seq<Effect>, c: Rgb)
    ensures Background(es) == Some(c) <==> exists i :: LastEffect(es, i) && es[i] == Set(c)
  {
    if es != [] {
      var rest, n := es[..|es| - 1], |es| - 1;
      BackgroundIsLast(rest, c);
      if es[n].Nothing? {
        forall i ensures LastEffect(rest, i) <==> LastEffect(es, i) {
          assert 0 <= i < n ==> rest[i] == es[i];
          assert forall j :: 0 <= j < n ==> rest[j] == es[j];
        }
      } else {
        assert LastEffect(es, n);
      }
    }
  }
}
