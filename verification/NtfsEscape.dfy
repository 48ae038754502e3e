/** NTFS path escaping (src/linux/init/escape.cpp) and the separator pass that
    precedes unescaping (src/linux/init/util.cpp).

    Bytes are 8-bit vectors, so that the shifts and masks are the source's own.
    A C string is an array together with the index of its first NUL byte. */
module NtfsEscape {

  type Char = bv8

  const NUL: Char := 0
  const SLASH: Char := 0x2f
  const BACKSLASH: Char := 0x5c
  const BASE0: Char := 0xef
  const BASE1: Char := 0x80
  const BASE2: Char := 0x80

  /** The entries that are false in the legality table, for characters up to SCHAR_MAX. */
  predicate NeedsEscape(c: Char) {
    c <= 0x7f &&
    (c < 0x20 || c == 0x22 || c == 0x2a || c == 0x3a || c == 0x3c || c == 0x3e || c == 0x3f || c == 0x5c || c == 0x7c)
  }

  ghost predicate NulFree(s: seq<Char>) {
    forall i :: 0 <= i < |s| ==> s[i] != NUL
  }

  /** The three bytes that stand for `c`. */
  function Packed(c: Char): seq<Char> {
    [BASE0, BASE1 | (c >> 6), BASE2 | (c & 0x3f)]
  }

  function Unpacked(b: Char, c: Char): Char {
    (b << 6) | (c & 0x3f)
  }

  /** The test the decoder makes on three consecutive bytes. */
  predicate Decodes(a: Char, b: Char, c: Char) {
    a == BASE0 && (b & BASE1) != 0 && (c & BASE2) != 0 && NeedsEscape(Unpacked(b, c))
  }

  predicate WindowAt(s: seq<Char>, i: nat) {
    i + 3 <= |s| && Decodes(s[i], s[i + 1], s[i + 2])
  }

  ghost predicate HasWindow(s: seq<Char>) {
    exists i: nat :: WindowAt(s, i)
  }

  // ---------------------------------------------------------------- escaping

  function EscapeChar(c: Char): seq<Char> {
    if c == SLASH then [BACKSLASH] else if !NeedsEscape(c) then [c] else Packed(c)
  }

  function Escape(p: seq<Char>): seq<Char> {
    if p == [] then [] else EscapeChar(p[0]) + Escape(p[1..])
  }

  function LinuxChar(c: Char): seq<Char> {
    if NeedsEscape(c) then Packed(c) else [c]
  }

  /** The escaped path with its separators turned back to slashes. */
  function Linux(p: seq<Char>): seq<Char> {
    if p == [] then [] else LinuxChar(p[0]) + Linux(p[1..])
  }

  /** The decoder as one left-to-right pass. */
  function Unescape(s: seq<Char>): (r: seq<Char>)
    ensures |r| <= |s|
  {
    if s == [] then []
    else if WindowAt(s, 0) then [Unpacked(s[1], s[2])] + Unescape(s[3..])
    else [s[0]] + Unescape(s[1..])
  }

  /** Packing loses nothing. */
  lemma PackedDecodes(c: Char)
    requires NeedsEscape(c)
    ensures Packed(c)[1] & BASE1 != 0 && Packed(c)[2] & BASE2 != 0
    ensures Unpacked(Packed(c)[1], Packed(c)[2]) == c
  {
    assert c <= 0x7f;
    assert ((0x80 | (c >> 6)) << 6) | ((0x80 | (c & 0x3f)) & 0x3f) == c;
  }

  /** No window straddles raw bytes and a fresh escape sequence: an accepted
      window never has the lead byte 0xEF in its second or third place. */
  lemma LeadByteOnlyLeads(b: Char, c: Char)
    ensures !Decodes(BASE0, BASE0, c)
    ensures !Decodes(BASE0, b, BASE0)
  {
    assert (BASE0 << 6) | (c & 0x3f) > 0x7f;
    assert BASE0 & 0x3f == 0x2f;
    assert (b << 6) | 0x2f == 0x2f || (b << 6) | 0x2f == 0x6f || (b << 6) | 0x2f > 0x7f;
  }

  lemma HighBitIsLegal(b: Char)
    requires b & 0x80 != 0
    ensures !NeedsEscape(b) && b != NUL
  {
    assert b > 0x7f;
  }

  lemma {:induction false} EscapeAppend(a: seq<Char>, b: seq<Char>)
    ensures Escape(a + b) == Escape(a) + Escape(b)
  {
    if a == [] {
      assert a + b == b;
    } else {
      assert (a + b)[1..] == a[1..] + b;
      EscapeAppend(a[1..], b);
    }
  }

  // ------------------------------------------------------------- what escaping is for

  /** The three bytes of UTF-8 for a code point of sixteen bits. */
  function Utf8(n: bv16): seq<Char> {
    [0xe0 | (n >> 12) as Char, 0x80 | ((n >> 6) & 0x3f) as Char, 0x80 | (n & 0x3f) as Char]
  }

  /** A character is replaced by the code point 0xF000 above it exactly if it is a control
      character or one of eight others; a slash becomes a backslash. */
  lemma EscapeOne(c: Char)
    ensures Escape([c]) ==
            if c == 0x2f then [0x5c]
            else if c < 0x20 || c in {0x22, 0x2a, 0x3a, 0x3c, 0x3e, 0x3f, 0x5c, 0x7c} then Utf8(0xf000 + c as bv16)
            else [c]
  {
    assert [c][1..] == [];
    if NeedsEscape(c) {
      PackedIsUtf8(c);
    }
  }

  lemma PackedIsUtf8(c: Char)
    requires c <= 0x7f
    ensures Packed(c) == Utf8(0xf000 + c as bv16)
  {
  }

  /** What comes out holds no character that NTFS refuses, no colon and no slash. */
  lemma {:induction false} EscapedIsLegal(p: seq<Char>)
    ensures forall x :: x in Escape(p) ==> x >= 0x20 && x !in {0x22, 0x2a, 0x2f, 0x3a, 0x3c, 0x3e, 0x3f, 0x7c}
  {
    if p != [] {
      EscapedIsLegal(p[1..]);
      if NeedsEscape(p[0]) {
        PackedIsHigh(p[0]);
      }
    }
  }

  lemma PackedIsHigh(c: Char)
    ensures forall x :: x in Packed(c) ==> x > 0x7f
  {
    assert (0x80 | (c >> 6)) >= 0x80;
    assert (0x80 | (c & 0x3f)) >= 0x80;
  }

  /** A path in which nothing is refused changes in its slashes only. */
  lemma {:induction false} LegalPathStays(p: seq<Char>)
    requires forall x :: x in p ==> x >= 0x20 && x !in {0x22, 0x2a, 0x3a, 0x3c, 0x3e, 0x3f, 0x5c, 0x7c}
    ensures |Escape(p)| == |p|
    ensures forall i :: 0 <= i < |p| ==> Escape(p)[i] == if p[i] == 0x2f then 0x5c else p[i]
  {
    if p != [] {
      assert forall x :: x in p[1..] ==> x in p;
      LegalPathStays(p[1..]);
      assert p[0] in p;
    }
  }

  /** The decoder takes for an escape what agrees with one in its lead byte, the two top
      bits' places and the last six bits; it does not look at the bits between. */
  lemma AcceptedWindows(b: Char, c: Char)
    ensures Unescape([0xef, b, c]) != [0xef, b, c] <==>
            && b >= 0x80 && c >= 0x80
            && exists x: Char :: Refused(x) && b & 3 == x >> 6 && c & 0x3f == x & 0x3f
  {
    var s := [BASE0, b, c];
    assert s[1..] == [b, c] && s[3..] == [] && s[1..][1..] == [c];
    assert Unescape([c]) == [c] && Unescape([b, c]) == [b, c];
    var u := Unpacked(b, c);
    assert (b & 0x80 != 0) == (b >= 0x80) && (c & 0x80 != 0) == (c >= 0x80);
    assert b & 3 == u >> 6 && c & 0x3f == u & 0x3f;
    forall x: Char | Refused(x) && b & 3 == x >> 6 && c & 0x3f == x & 0x3f ensures x == u {
      SamePieces(b, c, x);
    }
    assert Refused(u) == NeedsEscape(u);
  }

  predicate Refused(x: Char) {
    x < 0x20 || x in {0x22, 0x2a, 0x3a, 0x3c, 0x3e, 0x3f, 0x5c, 0x7c}
  }

  lemma SamePieces(b: Char, c: Char, x: Char)
    requires b & 3 == x >> 6 && c & 0x3f == x & 0x3f
    ensures x == (b << 6) | (c & 0x3f)
  {
    assert b << 6 == (b & 3) << 6;
    assert ((x >> 6) << 6) | (x & 0x3f) == x;
  }

  lemma {:induction false} LinuxSnoc(p: seq<Char>, c: Char)
    ensures Linux(p + [c]) == Linux(p) + LinuxChar(c)
  {
    if p == [] {
      assert [c][1..] == [];
    } else {
      assert (p + [c])[1..] == p[1..] + [c];
      LinuxSnoc(p[1..], c);
    }
  }

  /** Decoding does not see the difference between a path and its escaped form. */
  lemma {:induction false} UnescapeLinux(p: seq<Char>)
    ensures Unescape(Linux(p)) == Unescape(p)
    decreases |p|
  {
    if p == [] {
    } else if NeedsEscape(p[0]) {
      PackedDecodes(p[0]);
      var e := Linux(p);
      assert e[3..] == Linux(p[1..]);
      assert e[..3] == Packed(p[0]);
      assert WindowAt(e, 0) && Unpacked(e[1], e[2]) == p[0];
      UnescapeLinux(p[1..]);
    } else if WindowAt(p, 0) {
      HighBitIsLegal(p[1]);
      HighBitIsLegal(p[2]);
      var e := Linux(p);
      LinuxUnfold(p);
      LinuxUnfold(p[1..]);
      LinuxUnfold(p[2..]);
      assert p[1..][1..] == p[2..] && p[2..][1..] == p[3..];
      assert e[3..] == Linux(p[3..]);
      UnescapeLinux(p[3..]);
    } else {
      var e := Linux(p);
      assert e[1..] == Linux(p[1..]);
      NoWindowAtPlainByte(p);
      UnescapeLinux(p[1..]);
    }
  }

  /** Escaping what follows a byte cannot turn that byte into the start of a window. */
  lemma NoWindowAtPlainByte(p: seq<Char>)
    requires p != [] && !NeedsEscape(p[0]) && !WindowAt(p, 0)
    ensures !WindowAt(Linux(p), 0)
  {
    hide Linux, NeedsEscape;
    var e, r := Linux(p), p[1..];
    LinuxUnfold(p);
    LinuxUnfold(r);
    if |p| >= 2 {
      if NeedsEscape(r[0]) {
        assert e[1] == BASE0;
        LeadByteOnlyLeads(0, e[2]);
      } else {
        assert e[1] == p[1];
        LinuxUnfold(r[1..]);
        if |p| >= 3 {
          assert r[1..][0] == p[2];
          assert e[2] == Linux(r[1..])[0];
          LeadByteOnlyLeads(p[1], 0);
        }
      }
    }
  }

  lemma LinuxUnfold(p: seq<Char>)
    ensures Linux(p) == if p == [] then [] else LinuxChar(p[0]) + Linux(p[1..])
  {
  }

  lemma {:induction false} UnescapeShrinks(s: seq<Char>)
    ensures !HasWindow(s) ==> Unescape(s) == s
    ensures HasWindow(s) ==> |Unescape(s)| < |s|
  {
    if s != [] && !WindowAt(s, 0) {
      UnescapeShrinks(s[1..]);
      if HasWindow(s) {
        var i: nat :| WindowAt(s, i);
        assert WindowAt(s[1..], i - 1);
      } else {
        forall i: nat ensures !WindowAt(s[1..], i) {
          assert !WindowAt(s, i + 1);
        }
      }
    }
  }

  // ------------------------------------------------------- what a C string holds

  function CStr(s: seq<Char>): (r: seq<Char>)
    ensures |r| <= |s|
    ensures NulFree(s) ==> r == s
    ensures NulFree(r)
  {
    if s == [] || s[0] == NUL then [] else [s[0]] + CStr(s[1..])
  }

  function TurnBack(s: seq<Char>): seq<Char> {
    if s == [] then [] else [if s[0] == BACKSLASH then SLASH else s[0]] + TurnBack(s[1..])
  }

  lemma {:induction false} TurnBackAppend(a: seq<Char>, b: seq<Char>)
    ensures TurnBack(a + b) == TurnBack(a) + TurnBack(b)
  {
    if a == [] {
      assert a + b == b;
    } else {
      assert (a + b)[1..] == a[1..] + b;
      TurnBackAppend(a[1..], b);
    }
  }

  lemma {:induction false} TurnBackPlain(s: seq<Char>)
    requires BACKSLASH !in s
    ensures TurnBack(s) == s
  {
    if s != [] {
      TurnBackPlain(s[1..]);
    }
  }

  lemma {:induction false} TurnBackEscape(p: seq<Char>)
    ensures TurnBack(Escape(p)) == Linux(p)
  {
    if p != [] {
      TurnBackEscape(p[1..]);
      TurnBackAppend(EscapeChar(p[0]), Escape(p[1..]));
      if NeedsEscape(p[0]) {
        PackedPlain(p[0]);
        TurnBackPlain(Packed(p[0]));
      }
    }
  }

  lemma PackedPlain(c: Char)
    requires NeedsEscape(c)
    ensures forall i :: 0 <= i < 3 ==> Packed(c)[i] >= 0x80
  {
    assert (0x80 | (c >> 6)) >= 0x80;
    assert (0x80 | (c & 0x3f)) >= 0x80;
  }

  /** Escaping, turning separators back and unescaping gives the path back
      exactly when the path has no raw bytes that look like an escape. */
  lemma RoundTrip(p: seq<Char>)
    requires NulFree(p)
    ensures CStr(Unescape(TurnBack(Escape(p)))) == p <==> !HasWindow(p)
  {
    TurnBackEscape(p);
    UnescapeLinux(p);
    UnescapeShrinks(p);
  }

  /** An unescaped string holds no window, so unescaping a second time changes
      nothing, whatever the input. */
  lemma {:induction false} UnescapeLeavesNoWindow(s: seq<Char>)
    ensures !HasWindow(Unescape(s))
  {
    if s != [] {
      var head := if WindowAt(s, 0) then 3 else 1;
      var r := Unescape(s);
      UnescapeLeavesNoWindow(s[head..]);
      forall i: nat ensures !WindowAt(r, i) {
        if i > 0 {
          assert !WindowAt(Unescape(s[head..]), i - 1);
          assert r[1..] == Unescape(s[head..]);
        } else if WindowAt(r, 0) {
          assert r[0] == s[0] == BASE0;
          HighByteIsRaw(s[1..], r[1]);
          HighByteIsRaw(s[1..][1..], r[2]);
        }
      }
    }
  }

  /** A byte with its high bit set that comes out of the decoder first went in first. */
  lemma HighByteIsRaw(s: seq<Char>, c: Char)
    requires Unescape(s) != [] && Unescape(s)[0] == c && c & 0x80 != 0
    ensures s != [] && s[0] == c && !WindowAt(s, 0) && Unescape(s)[1..] == Unescape(s[1..])
  {
    HighBitIsLegal(c);
  }

  lemma CStrPrefix(s: seq<Char>)
    ensures CStr(s) <= s
  {
  }

  lemma UnescapeIdempotent(s: seq<Char>)
    ensures CStr(Unescape(CStr(Unescape(s)))) == CStr(Unescape(s))
  {
    var r := Unescape(s);
    var t := CStr(r);
    UnescapeLeavesNoWindow(s);
    CStrPrefix(r);
    forall i: nat ensures !WindowAt(t, i) {
      assert !WindowAt(r, i);
    }
    UnescapeShrinks(t);
  }

  // ---------------------------------------------------- separators, as util.cpp does

  predicate IsSeparator(c: Char) {
    c == SLASH || c == BACKSLASH
  }

  /** One pass with `out` written so far: separators become `sep`, and a
      separator directly after one already written is dropped, except in second place. */
  function Canonical(out: seq<Char>, s: seq<Char>, sep: Char): (r: seq<Char>)
    decreases |s|
  {
    if s == [] then out
    else if !IsSeparator(s[0]) then Canonical(out + [s[0]], s[1..], sep)
    else if |out| > 1 && out[|out| - 1] == sep then Canonical(out, s[1..], sep)
    else Canonical(out + [sep], s[1..], sep)
  }

  /** What is not a separator. */
  function Names(s: seq<Char>): seq<Char> {
    if s == [] then [] else (if s[0] == 0x2f || s[0] == 0x5c then [] else [s[0]]) + Names(s[1..])
  }

  lemma {:induction false} NamesSnoc(s: seq<Char>, c: Char)
    ensures Names(s + [c]) == Names(s) + if c == 0x2f || c == 0x5c then [] else [c]
  {
    if s == [] {
      assert [c][1..] == [];
    } else {
      assert (s + [c])[1..] == s[1..] + [c];
      NamesSnoc(s[1..], c);
    }
  }

  /** Separators are all of one kind, and none follows another past the start. */
  ghost predicate Tidy(s: seq<Char>, sep: Char) {
    && (forall x :: x in s && (x == 0x2f || x == 0x5c) ==> x == sep)
    && forall i :: 2 <= i < |s| ==> !(s[i - 1] == sep && s[i] == sep)
  }

  lemma TidySnoc(s: seq<Char>, c: Char, sep: Char)
    requires Tidy(s, sep) && (c == 0x2f || c == 0x5c ==> c == sep)
    requires c == sep ==> |s| <= 1 || s[|s| - 1] != sep
    ensures Tidy(s + [c], sep)
  {
  }

  /** One pass leaves a tidy path, */
  lemma {:induction false} CanonicalIsTidy(out: seq<Char>, s: seq<Char>, sep: Char)
    requires Tidy(out, sep) && (sep == SLASH || sep == BACKSLASH)
    ensures Tidy(Canonical(out, s, sep), sep) && out <= Canonical(out, s, sep)
    decreases |s|
  {
    if s != [] {
      hide Tidy;
      var c := if IsSeparator(s[0]) then sep else s[0];
      if IsSeparator(s[0]) && |out| > 1 && out[|out| - 1] == sep {
        CanonicalIsTidy(out, s[1..], sep);
      } else {
        TidySnoc(out, c, sep);
        CanonicalIsTidy(out + [c], s[1..], sep);
      }
    }
  }

  /** with the same names in it. */
  lemma {:induction false} CanonicalKeepsNames(out: seq<Char>, s: seq<Char>, sep: Char)
    requires sep == SLASH || sep == BACKSLASH
    ensures Names(Canonical(out, s, sep)) == Names(out) + Names(s)
    decreases |s|
  {
    if s != [] {
      var c := if IsSeparator(s[0]) then sep else s[0];
      NamesSnoc(out, c);
      CanonicalKeepsNames(if IsSeparator(s[0]) && |out| > 1 && out[|out| - 1] == sep then out else out + [c], s[1..], sep);
    }
  }

  /** A separator stays where it is the first or second character, or follows a name. */
  lemma CanonicalKeeps(out: seq<Char>, s: seq<Char>, sep: Char)
    requires s != [] && (sep == SLASH || sep == BACKSLASH)
    requires |out| <= 1 || out[|out| - 1] != sep || !(s[0] == 0x2f || s[0] == 0x5c)
    requires Tidy(out, sep)
    ensures out + [if s[0] == 0x2f || s[0] == 0x5c then sep else s[0]] <= Canonical(out, s, sep)
  {
    var c := if IsSeparator(s[0]) then sep else s[0];
    CanonicalIsTidy(out + [c], s[1..], sep);
  }

  /** A Linux path in which no separator would be dropped. */
  ghost predicate SlashesApart(p: seq<Char>) {
    forall i :: 2 <= i < |p| ==> !(p[i - 1] == SLASH && p[i] == SLASH)
  }

  function Squeeze(out: seq<Char>, p: seq<Char>): (r: seq<Char>)
    ensures |r| <= |out| + |p|
    decreases |p|
  {
    if p == [] then out
    else if p[0] == SLASH && |out| > 1 && out[|out| - 1] == SLASH then Squeeze(out, p[1..])
    else Squeeze(out + [p[0]], p[1..])
  }

  lemma {:induction false} SqueezeKeeps(out: seq<Char>, p: seq<Char>)
    ensures SlashesApart(out + p) ==> Squeeze(out, p) == out + p
    ensures SlashesApart(out) && !SlashesApart(out + p) ==> |Squeeze(out, p)| < |out| + |p|
    decreases |p|
  {
    if p == [] {
      assert out + p == out;
    } else {
      var q := out + [p[0]];
      assert q + p[1..] == out + p;
      if p[0] == SLASH && |out| > 1 && out[|out| - 1] == SLASH {
        assert (out + p)[|out|] == SLASH && (out + p)[|out| - 1] == SLASH;
      } else {
        SqueezeKeeps(q, p[1..]);
      }
    }
  }

  lemma {:induction false} CanonicalCopies(out: seq<Char>, t: seq<Char>, rest: seq<Char>, sep: Char)
    requires forall i :: 0 <= i < |t| ==> !IsSeparator(t[i])
    ensures Canonical(out, t + rest, sep) == Canonical(out + t, rest, sep)
    decreases |t|
  {
    if t == [] {
      assert t + rest == rest && out + t == out;
    } else {
      assert (t + rest)[1..] == t[1..] + rest;
      CanonicalCopies(out + [t[0]], t[1..], rest, sep);
      assert out + [t[0]] + t[1..] == out + t;
    }
  }

  /** Canonicalising an escaped path is escaping the squeezed path. */
  lemma {:induction false} CanonicalEscape(out: seq<Char>, p: seq<Char>)
    ensures Canonical(Linux(out), Escape(p), SLASH) == Linux(Squeeze(out, p))
    decreases |p|
  {
    if p != [] {
      var c := p[0];
      LinuxSnoc(out, c);
      if NeedsEscape(c) {
        PackedPlain(c);
        CanonicalCopies(Linux(out), Packed(c), Escape(p[1..]), SLASH);
        CanonicalEscape(out + [c], p[1..]);
      } else if c != SLASH {
        CanonicalCopies(Linux(out), [c], Escape(p[1..]), SLASH);
        CanonicalEscape(out + [c], p[1..]);
      } else {
        LinuxEnd(out);
        assert Escape(p)[1..] == Escape(p[1..]);
        CanonicalEscape(if |out| > 1 && out[|out| - 1] == SLASH then out else out + [c], p[1..]);
      }
    }
  }

  lemma LinuxEnd(out: seq<Char>)
    ensures |Linux(out)| >= |out|
    ensures |out| > 0 ==> var e := Linux(out); (e[|e| - 1] == SLASH <==> out[|out| - 1] == SLASH)
    ensures |Linux(out)| > 1 && Linux(out)[|Linux(out)| - 1] == SLASH ==> |out| > 1
  {
    if out != [] {
      var q := out[..|out| - 1];
      var c := out[|out| - 1];
      assert q + [c] == out;
      LinuxEnd(q);
      LinuxSnoc(q, c);
      if NeedsEscape(c) {
        PackedPlain(c);
      }
    }
  }

  /** What becomes of a Windows path behind its prefix, as a C string. */
  function FromWindows(w: seq<Char>): seq<Char> {
    if w == [] then [SLASH] else CStr(Unescape(Canonical([], w, SLASH)))
  }

  /** The translation to a Windows path and back, prefixes aside: a path survives
      exactly when it is not empty, has no raw escape and no doubled slash past its start. */
  lemma TranslationRoundTrip(p: seq<Char>)
    requires NulFree(p)
    ensures FromWindows(Escape(p)) == p <==> p != [] && !HasWindow(p) && SlashesApart(p)
  {
    if p != [] {
      EscapeKeepsSome(p);
      CanonicalEscape([], p);
      SqueezeKeeps([], p);
      assert [] + p == p;
      UnescapeLinux(Squeeze([], p));
      UnescapeShrinks(p);
    }
  }

  lemma EscapeKeepsSome(p: seq<Char>)
    requires p != []
    ensures Escape(p) != []
  {
  }

  // ------------------------------------------------------------ the routines in place

  ghost predicate NulAt(a: array<Char>, start: nat, n: nat)
    reads a
  {
    start <= n < a.Length && a[n] == NUL && forall k :: start <= k < n ==> a[k] != NUL
  }

  lemma EscapeStep(s: seq<Char>, i: nat)
    requires i < |s|
    ensures Escape(s[..i + 1]) == Escape(s[..i]) + EscapeChar(s[i])
    ensures |Escape(s[..i + 1])| <= |Escape(s)|
  {
    assert s[..i + 1] == s[..i] + [s[i]];
    assert Escape([s[i]]) == EscapeChar(s[i]);
    EscapeAppend(s[..i], [s[i]]);
    assert s == s[..i + 1] + s[i + 1..];
    EscapeAppend(s[..i + 1], s[i + 1..]);
  }

  /** EscapePathForNtLength. */
  method EscapePathForNtLength(path: array<Char>, ghost n: nat) returns (length: nat)
    requires NulAt(path, 0, n)
    ensures length == |Escape(path[..n])|
  {
    ghost var s := path[..n];
    length := 0;
    var current := 0;
    while path[current] != NUL
      invariant current <= n
      invariant length == |Escape(s[..current])|
      decreases n - current
    {
      EscapeStep(s, current);
      if !NeedsEscape(path[current]) {
        length := length + 1;
      } else {
        length := length + 3;
      }
      current := current + 1;
    }
    assert s[..current] == s;
  }

  /** EscapePathForNt: fills exactly the computed length, with no terminator. */
  method EscapePathForNt(path: array<Char>, ghost n: nat, escaped: array<Char>)
    requires NulAt(path, 0, n) && path != escaped
    requires |Escape(path[..n])| <= escaped.Length
    modifies escaped
    ensures escaped[..|Escape(path[..n])|] == Escape(path[..n])
    ensures forall k :: |Escape(path[..n])| <= k < escaped.Length ==> escaped[k] == old(escaped[k])
  {
    ghost var s := path[..n];
    var insertion := 0;
    var current := 0;
    while path[current] != NUL
      invariant current <= n && path[..n] == s
      invariant insertion == |Escape(s[..current])| <= |Escape(s)|
      invariant escaped[..insertion] == Escape(s[..current])
      invariant forall k :: insertion <= k < escaped.Length ==> escaped[k] == old(escaped[k])
      decreases n - current
    {
      EscapeStep(s, current);
      insertion := PutEscaped(path[current], escaped, insertion);
      current := current + 1;
    }
    assert s[..current] == s;
  }

  /** The body of EscapePathForNt for one character. */
  method PutEscaped(c: Char, escaped: array<Char>, insertion: nat) returns (next: nat)
    requires insertion + |EscapeChar(c)| <= escaped.Length
    modifies escaped
    ensures next == insertion + |EscapeChar(c)|
    ensures escaped[..next] == old(escaped[..insertion]) + EscapeChar(c)
    ensures forall k :: next <= k < escaped.Length ==> escaped[k] == old(escaped[k])
  {
    if c == SLASH {
      escaped[insertion] := BACKSLASH;
      next := insertion + 1;
    } else if !NeedsEscape(c) {
      escaped[insertion] := c;
      next := insertion + 1;
    } else {
      escaped[insertion] := BASE0;
      escaped[insertion + 1] := BASE1 | (c >> 6);
      escaped[insertion + 2] := BASE2 | (c & 0x3f);
      next := insertion + 3;
    }
  }

  /** strlen, from an offset. */
  method StrLen(a: array<Char>, start: nat, ghost n: nat) returns (length: nat)
    requires NulAt(a, start, n)
    ensures start + length == n
  {
    length := 0;
    while a[start + length] != NUL
      invariant start + length <= n
      decreases n - length
    {
      length := length + 1;
    }
  }

  /** memmove within one buffer. */
  method MemMove(a: array<Char>, to: nat, from: nat, count: nat)
    requires to + count <= a.Length && from + count <= a.Length
    modifies a
    ensures a[to..to + count] == old(a[from..from + count])
    ensures forall k :: 0 <= k < to || to + count <= k < a.Length ==> a[k] == old(a[k])
  {
    forall k | 0 <= k < count {
      a[to + k] := a[from + k];
    }
  }

  /** Closes the two-byte gap after a decoded sequence, terminator included. */
  method ShiftDown(path: array<Char>, current: nat, ghost end: nat)
    requires current + 3 <= end && NulAt(path, current + 3, end)
    modifies path
    ensures NulAt(path, current + 1, end - 2)
    ensures path[current + 1..end - 2] == old(path[current + 3..end])
    ensures path[..current + 1] == old(path[..current + 1])
    ensures forall k :: end < k < path.Length ==> path[k] == old(path[k])
  {
    var remaining := StrLen(path, current + 3, end);
    ghost var rest := path[current + 3..end];
    ghost var moved := path[current + 3..current + 3 + (remaining + 1)];
    assert moved == rest + [NUL];
    MemMove(path, current + 1, current + 3, remaining + 1);
    assert path[current + 1..end - 1] == moved;
    assert path[current + 1..end - 2] == moved[..remaining] == rest;
    assert path[end - 2] == moved[remaining];
    assert forall k :: current + 1 <= k < end - 2 ==> path[k] == rest[k - (current + 1)];
  }

  /** UnescapePathInplace. `n` is where the terminator was; the buffer need not
      reach past it, so the in-bounds checks say no byte after it is read. */
  method UnescapePathInplace(path: array<Char>, ghost n: nat)
    requires NulAt(path, 0, n)
    modifies path
    ensures var r := Unescape(old(path[..n])); path[..|r|] == r && path[|r|] == NUL
    ensures forall k :: n < k < path.Length ==> path[k] == old(path[k])
  {
    ghost var r := Unescape(path[..n]);
    ghost var end := n;
    var current := 0;
    while path[current] != NUL
      invariant end <= n && NulAt(path, current, end)
      invariant path[..current] + Unescape(path[current..end]) == r
      invariant forall k :: n < k < path.Length ==> path[k] == old(path[k])
      decreases end - current
    {
      end := DecodeAt(path, current, end);
      current := current + 1;
    }
  }

  /** The body of that loop. */
  method DecodeAt(path: array<Char>, current: nat, ghost end: nat) returns (ghost end': nat)
    requires current < end && NulAt(path, current, end)
    modifies path
    ensures current < end' <= end && NulAt(path, current + 1, end')
    ensures path[..current + 1] + Unescape(path[current + 1..end']) == old(path[..current] + Unescape(path[current..end]))
    ensures forall k :: end < k < path.Length ==> path[k] == old(path[k])
  {
    ghost var s, done := path[current..end], path[..current];
    end' := end;
    if path[current] == BASE0 && path[current + 1] & BASE1 != 0 && path[current + 2] & BASE2 != 0 &&
       NeedsEscape(Unpacked(path[current + 1], path[current + 2])) {
      path[current] := Unpacked(path[current + 1], path[current + 2]);
      assert path[current + 3..end] == s[3..];
      assert path[..current + 1] == done + [Unpacked(s[1], s[2])];
      ShiftDown(path, current, end);
      end' := end - 2;
    } else {
      assert !WindowAt(s, 0);
      assert path[..current + 1] == done + [s[0]] && path[current + 1..end] == s[1..];
    }
    UnescapeStep(s, done, path[..current + 1], path[current + 1..end']);
  }

  lemma UnescapeStep(s: seq<Char>, done: seq<Char>, done': seq<Char>, s': seq<Char>)
    requires s != []
    requires if WindowAt(s, 0) then done' == done + [Unpacked(s[1], s[2])] && s' == s[3..]
             else done' == done + [s[0]] && s' == s[1..]
    ensures done' + Unescape(s') == done + Unescape(s)
  {
  }

  /** UtilCanonicalisePathSeparator. */
  method CanonicalisePathSeparator(path: array<Char>, ghost n: nat, separator: Char) returns (size: nat)
    requires NulAt(path, 0, n)
    modifies path
    ensures size <= n && path[..size] == Canonical([], old(path[..n]), separator) && path[size] == NUL
    ensures forall k :: n < k < path.Length ==> path[k] == old(path[k])
  {
    ghost var s := path[..n];
    var length := StrLen(path, 0, n);
    var source := 0;
    size := 0;
    while source < length
      invariant size <= source <= length == n
      invariant path[source..n] == s[source..]
      invariant Canonical(path[..size], s[source..], separator) == Canonical([], s, separator)
      invariant forall k :: n <= k < path.Length ==> path[k] == old(path[k])
    {
      assert s[source..][1..] == s[source + 1..];
      size := KeepSeparator(path, size, source, n, separator);
      source := source + 1;
    }
    path[size] := NUL;
  }

  /** The body of that loop. */
  method KeepSeparator(path: array<Char>, size: nat, source: nat, ghost n: nat, separator: Char) returns (next: nat)
    requires size <= source < n <= path.Length
    modifies path
    ensures next <= source + 1
    ensures Canonical(path[..next], path[source + 1..n], separator) == old(Canonical(path[..size], path[source..n], separator))
    ensures path[source + 1..n] == old(path[source..n])[1..]
    ensures forall k :: n <= k < path.Length ==> path[k] == old(path[k])
  {
    ghost var out, s := path[..size], path[source..n];
    assert s[0] == path[source];
    if path[source] == SLASH || path[source] == BACKSLASH {
      if size > 1 && path[size - 1] == separator {
        assert path[source + 1..n] == s[1..];
        return size;
      }
      path[size] := separator;
    } else {
      path[size] := path[source];
    }
    next := size + 1;
    assert path[..next] == out + [path[size]];
    assert path[source + 1..n] == s[1..];
  }

  lemma {:induction false} CanonicalNulFree(out: seq<Char>, s: seq<Char>, sep: Char)
    requires NulFree(out) && NulFree(s) && sep != NUL
    ensures NulFree(Canonical(out, s, sep))
    decreases |s|
  {
    if s != [] {
      CanonicalNulFree(if !IsSeparator(s[0]) then out + [s[0]]
                       else if |out| > 1 && out[|out| - 1] == sep then out else out + [sep], s[1..], sep);
    }
  }

  lemma {:induction false} CStrStops(s: seq<Char>, n: nat)
    requires n < |s| && s[n] == NUL
    ensures CStr(s) == CStr(s[..n])
  {
    if n > 0 && s[0] != NUL {
      CStrStops(s[1..], n - 1);
      assert s[1..][..n - 1] == s[..n][1..];
    }
  }

  /** The reverse direction of UtilWinPathTranslateInternal, behind the prefix. */
  method TranslateFromWindows(path: array<Char>, ghost n: nat)
    requires NulAt(path, 0, n) && path.Length >= 2
    modifies path
    ensures CStr(path[..]) == FromWindows(old(path[..n]))
  {
    if path[0] == NUL {
      path[0], path[1] := SLASH, NUL;
      CStrStops(path[..], 1);
      assert path[..][..1] == [SLASH];
    } else {
      CanonicalNulFree([], path[..n], SLASH);
      var size := CanonicalisePathSeparator(path, n, SLASH);
      assert forall k :: 0 <= k < size ==> path[k] == path[..size][k];
      ghost var r := Unescape(path[..size]);
      UnescapePathInplace(path, size);
      CStrStops(path[..], |r|);
      assert path[..][..|r|] == r;
    }
  }
}
