/** The background colour sniffer of FreeBSD/terminal_notify.h: the OSC strings of a
    terminal's output (section 8.3.89 of ECMA-48, with BEL as a second terminator)
    recognised byte by byte. */
module OscSniffer {
  import opened OscColor
  import opened Wrappers

  const ESC := '\U{1B}'
  const BEL := '\U{07}'
  const ROOM := 255

  // ------------------------------------------------------- the parse of a whole stream

  /** Where the first ESC ] is; the length if there is none. */
  function Opener(s: string): (k: nat)
    ensures k == |s| || (k + 1 < |s| && s[k] == ESC && s[k + 1] == ']')
    ensures forall i :: 0 <= i < k && i + 1 < |s| ==> !(s[i] == ESC && s[i + 1] == ']')
  {
    if s == "" || [ESC, ']'] <= s then 0 else 1 + Opener(s[1..])
  }

  /** Where the first BEL or ESC is; the length if there is none. */
  function Stop(s: string): (n: nat)
    ensures n <= |s| && (n < |s| ==> s[n] == BEL || s[n] == ESC)
    ensures Plain(s[..n])
  {
    if s == "" || s[0] == BEL || s[0] == ESC then 0 else 1 + Stop(s[1..])
  }

  predicate Plain(s: string) {
    BEL !in s && ESC !in s
  }

  /** The complete OSC strings of a stream, in order. */
  function Payloads(s: string): seq<string>
    decreases |s|, 1
  {
    var k := Opener(s);
    if k == |s| then [] else Body(s[k + 2..])
  }

  /** The same after an ESC ]. A payload ends with BEL or ESC \. One that is longer than
      the buffer is dropped at its 256th byte; an ESC that starts no terminator drops the
      payload together with the byte after it, unless that byte is an ESC again. */
  function Body(s: string): seq<string>
    decreases |s|, 0
  {
    var n := Stop(s);
    if n > ROOM then Payloads(s[ROOM + 1..])
    else if n == |s| then []
    else if s[n] == BEL then [s[..n]] + Payloads(s[n + 1..])
    else if n + 1 == |s| then []
    else if s[n + 1] == '\\' then [s[..n]] + Payloads(s[n + 2..])
    else if s[n + 1] == ESC then Payloads(s[n + 1..])
    else Payloads(s[n + 2..])
  }

  // --------------------------------------------------------------- the byte-fed form

  datatype State = Idle | Escaped | Osc | OscEscaped

  /** What has been read of an OSC string that is not complete. */
  function Pending(st: State, buf: string): string {
    match st
    case Idle => ""
    case Escaped => [ESC]
    case Osc => [ESC, ']'] + buf
    case OscEscaped => [ESC, ']'] + buf + [ESC]
  }

  lemma SkipOne(s: string)
    requires s != "" && !([ESC, ']'] <= s)
    ensures Payloads(s) == Payloads(s[1..])
  {
    var k := Opener(s);
    if k < |s| {
      assert s[1..][k - 1 + 2..] == s[k + 2..];
    }
  }

  lemma Opened(s: string)
    ensures Payloads([ESC, ']'] + s) == Body(s)
  {
    assert ([ESC, ']'] + s)[2..] == s;
  }

  /** Plain bytes before a control byte. */
  lemma {:induction false} StopAt(p: string, rest: string)
    requires Plain(p) && rest != "" && (rest[0] == BEL || rest[0] == ESC)
    ensures Stop(p + rest) == |p| && (p + rest)[..|p|] == p
  {
    if p == "" {
      assert p + rest == rest;
    } else {
      assert (p + rest)[1..] == p[1..] + rest;
      StopAt(p[1..], rest);
    }
  }

  lemma {:induction false} StopBeyond(p: string, rest: string)
    requires Plain(p)
    ensures Stop(p + rest) >= |p|
  {
    if p != "" {
      assert (p + rest)[1..] == p[1..] + rest;
      StopBeyond(p[1..], rest);
    }
  }

  /** An unfinished OSC string is none. */
  lemma PendingIsNone(st: State, buf: string)
    requires Plain(buf) && |buf| <= ROOM
    ensures Payloads(Pending(st, buf)) == []
  {
    match st
    case Idle =>
    case Escaped => SkipOne([ESC]);
    case Osc =>
      Opened(buf);
      StopBeyond(buf, "");
      assert buf + "" == buf;
    case OscEscaped =>
      assert Pending(st, buf) == [ESC, ']'] + (buf + [ESC]);
      Opened(buf + [ESC]);
      StopAt(buf, [ESC]);
  }

  datatype Step = Step(st: State, buf: string, found: seq<string>)

  /** One byte: the new state, the new buffer and the payload that is complete, if any. */
  function Next(st: State, buf: string, b: char): Step {
    match st
    case Idle => Step(if b == ESC then Escaped else Idle, buf, [])
    case Escaped =>
      if b == ']' then Step(Osc, "", []) else Step(if b == ESC then Escaped else Idle, buf, [])
    case Osc =>
      if b == BEL then Step(Idle, buf, [buf])
      else if b == ESC then Step(OscEscaped, buf, [])
      else if |buf| < ROOM then Step(Osc, buf + [b], [])
      else Step(Idle, "", [])
    case OscEscaped =>
      if b == '\\' then Step(Idle, buf, [buf]) else Step(if b == ESC then Escaped else Idle, "", [])
  }

  lemma NextIdle(buf: string, b: char, rest: string)
    ensures var n := Next(Idle, buf, b);
            Payloads([b] + rest) == n.found + Payloads(Pending(n.st, n.buf) + rest)
  {
    var s := [b] + rest;
    if b == ESC {
      assert s == [ESC] + rest;
    } else {
      assert s[0] == b && s[1..] == rest == "" + rest;
      SkipOne(s);
    }
  }

  lemma NextEscaped(buf: string, b: char, rest: string)
    ensures var n := Next(Escaped, buf, b);
            Payloads([ESC, b] + rest) == n.found + Payloads(Pending(n.st, n.buf) + rest)
  {
    var s := [ESC, b] + rest;
    if b == ']' {
      assert s == Pending(Osc, "") + rest;
    } else {
      assert s[1] == b && s[1..] == [b] + rest;
      SkipOne(s);
      NextIdle(buf, b, rest);
    }
  }

  lemma NextFromText(st: State, buf: string, b: char, rest: string)
    requires st.Idle? || st.Escaped?
    ensures var n := Next(st, buf, b);
            Payloads(Pending(st, buf) + [b] + rest) == n.found + Payloads(Pending(n.st, n.buf) + rest)
  {
    hide Payloads;
    if st.Idle? {
      NextIdle(buf, b, rest);
      assert Pending(st, buf) + [b] + rest == [b] + rest;
    } else {
      NextEscaped(buf, b, rest);
      assert Pending(st, buf) + [b] + rest == [ESC, b] + rest;
    }
  }

  function Terminator(st: bool): string {
    if st then [ESC, '\\'] else [BEL]
  }

  lemma BodyEnds(p: string, st: bool, rest: string)
    requires Plain(p) && |p| <= ROOM
    ensures Body(p + (Terminator(st) + rest)) == [p] + Payloads(rest)
  {
    hide Stop, Payloads;
    var s := p + (Terminator(st) + rest);
    StopAt(p, Terminator(st) + rest);
    assert s[|p|] == Terminator(st)[0];
    if st {
      assert s[|p| + 1] == '\\' && s[|p| + 2..] == rest;
    } else {
      assert s[|p| + 1..] == rest;
    }
  }

  lemma BrokenAt(s: string, n: nat)
    requires Stop(s) == n <= ROOM && n + 1 < |s| && s[n] == ESC && s[n + 1] != '\\'
    ensures s[n + 1] == ESC ==> Body(s) == Payloads(s[n + 1..])
    ensures s[n + 1] != ESC ==> Body(s) == Payloads(s[n + 2..])
  {
  }

  lemma BodyBroken(p: string, b: char, rest: string)
    requires Plain(p) && |p| <= ROOM && b != '\\'
    ensures Body(p + ([ESC, b] + rest)) == Payloads(if b == ESC then [b] + rest else rest)
  {
    hide Body, Payloads, Stop;
    var t := [ESC, b] + rest;
    var s := p + t;
    StopAt(p, t);
    assert s[|p|] == t[0] && s[|p| + 1] == t[1];
    BrokenAt(s, |p|);
    if b == ESC {
      assert s[|p| + 1..] == [b] + rest;
    } else {
      assert s[|p| + 2..] == rest;
    }
  }

  lemma BodyOverflows(p: string, rest: string)
    requires Plain(p) && |p| == ROOM + 1
    ensures Body(p + rest) == Payloads(rest)
  {
    StopBeyond(p, rest);
    assert (p + rest)[ROOM + 1..] == rest;
  }

  lemma NextAtBel(buf: string, rest: string)
    requires Plain(buf) && |buf| <= ROOM
    ensures Payloads(Pending(Osc, buf) + [BEL] + rest) == [buf] + Payloads(rest)
  {
    hide Body, Payloads;
    var body := buf + (Terminator(false) + rest);
    assert Pending(Osc, buf) + [BEL] + rest == [ESC, ']'] + body;
    Opened(body);
    BodyEnds(buf, false, rest);
  }

  lemma NextOverflows(buf: string, b: char, rest: string)
    requires Plain(buf) && |buf| == ROOM && b != BEL && b != ESC
    ensures Payloads(Pending(Osc, buf) + [b] + rest) == Payloads(rest)
  {
    assert Pending(Osc, buf) + [b] + rest == [ESC, ']'] + (buf + [b] + rest);
    Opened(buf + [b] + rest);
    BodyOverflows(buf + [b], rest);
  }

  lemma NextInOsc(buf: string, b: char, rest: string)
    requires Plain(buf) && |buf| <= ROOM
    ensures var n := Next(Osc, buf, b);
            Payloads(Pending(Osc, buf) + [b] + rest) == n.found + Payloads(Pending(n.st, n.buf) + rest)
  {
    assert "" + rest == rest;
    if b == BEL {
      NextAtBel(buf, rest);
    } else if b == ESC {
      assert Pending(Osc, buf) + [b] == Pending(OscEscaped, buf);
    } else if |buf| < ROOM {
      assert Pending(Osc, buf) + [b] == Pending(Osc, buf + [b]);
    } else {
      NextOverflows(buf, b, rest);
    }
  }

  lemma NextAfterEscape(buf: string, b: char, rest: string)
    requires Plain(buf) && |buf| <= ROOM
    ensures var n := Next(OscEscaped, buf, b);
            Payloads(Pending(OscEscaped, buf) + [b] + rest) == n.found + Payloads(Pending(n.st, n.buf) + rest)
  {
    assert "" + rest == rest;
    var tail := [ESC, b] + rest;
    assert Pending(OscEscaped, buf) + [b] + rest == [ESC, ']'] + (buf + tail);
    Opened(buf + tail);
    if b == '\\' {
      BodyEnds(buf, true, rest);
    } else {
      BodyBroken(buf, b, rest);
    }
  }

  /** Feeding one byte moves it, and what it completes, from the stream to the state. */
  lemma NextIsSound(st: State, buf: string, b: char, rest: string)
    requires Plain(buf) && |buf| <= ROOM
    ensures var n := Next(st, buf, b);
            Payloads(Pending(st, buf) + [b] + rest) == n.found + Payloads(Pending(n.st, n.buf) + rest)
  {
    match st
    case Osc => NextInOsc(buf, b, rest);
    case OscEscaped => NextAfterEscape(buf, b, rest);
    case _ => NextFromText(st, buf, b, rest);
  }

  /** If the stream goes on like this, its payloads are those seen and those of what is pending. */
  ghost predicate ExplainsIf(fed: string, seen: seq<string>, st: State, buf: string, rest: string) {
    Payloads(fed + rest) == seen + Payloads(Pending(st, buf) + rest)
  }

  ghost predicate Explains(fed: string, seen: seq<string>, st: State, buf: string) {
    forall rest: string :: ExplainsIf(fed, seen, st, buf, rest)
  }

  lemma SeenIsParsed(fed: string, seen: seq<string>, st: State, buf: string)
    requires Explains(fed, seen, st, buf) && Plain(buf) && |buf| <= ROOM
    ensures Payloads(fed) == seen
  {
    assert ExplainsIf(fed, seen, st, buf, "");
    assert fed + "" == fed && Pending(st, buf) + "" == Pending(st, buf);
    PendingIsNone(st, buf);
  }

  lemma Regrouped<T>(a: seq<T>, b: seq<T>, c: seq<T>)
    ensures a + b + c == a + (b + c)
  {
  }

  lemma ExplainsIfNext(fed: string, seen: seq<string>, st: State, buf: string, b: char, rest: string)
    requires ExplainsIf(fed, seen, st, buf, [b] + rest) && Plain(buf) && |buf| <= ROOM
    ensures var n := Next(st, buf, b); ExplainsIf(fed + [b], seen + n.found, n.st, n.buf, rest)
  {
    var n := Next(st, buf, b);
    Regrouped(fed, [b], rest);
    Regrouped(Pending(st, buf), [b], rest);
    NextIsSound(st, buf, b, rest);
    Regrouped(seen, n.found, Payloads(Pending(n.st, n.buf) + rest));
  }

  lemma ExplainsNext(fed: string, seen: seq<string>, st: State, buf: string, b: char)
    requires Explains(fed, seen, st, buf) && Plain(buf) && |buf| <= ROOM
    ensures var n := Next(st, buf, b); Explains(fed + [b], seen + n.found, n.st, n.buf)
  {
    var n := Next(st, buf, b);
    forall rest: string ensures ExplainsIf(fed + [b], seen + n.found, n.st, n.buf, rest) {
      ExplainsIfNext(fed, seen, st, buf, b, rest);
    }
  }

  /** An OSC string is not opened inside another: the second ESC ] is swallowed with the first's payload. */
  lemma NoOscInsideOsc(payload: string, rest: string)
    requires Plain(payload) && |payload| <= ROOM
    ensures Payloads([ESC, ']'] + payload + [ESC, ']'] + rest) == Payloads(rest)
  {
    assert [ESC, ']'] + payload + [ESC, ']'] + rest == [ESC, ']'] + (payload + ([ESC, ']'] + rest));
    Opened(payload + ([ESC, ']'] + rest));
    BodyBroken(payload, ']', rest);
  }

  lemma NextIsPlain(st: State, buf: string, b: char)
    requires Plain(buf)
    ensures Plain(Next(st, buf, b).buf)
  {
  }

  // ------------------------------------------------------------------- completeness

  /** Text, then an OSC string with one of the two terminators. */
  datatype Piece = Piece(text: string, payload: string, st: bool)

  predicate Proper(p: Piece) {
    ESC !in p.text && Plain(p.payload)
  }

  function Emit(ps: seq<Piece>): string {
    if ps == [] then "" else ps[0].text + [ESC, ']'] + ps[0].payload + Terminator(ps[0].st) + Emit(ps[1..])
  }

  function Sent(ps: seq<Piece>): seq<string> {
    if ps == [] then [] else [ps[0].payload] + Sent(ps[1..])
  }

  lemma {:induction false} TextIsSkipped(text: string, s: string)
    requires ESC !in text
    ensures Payloads(text + s) == Payloads(s)
  {
    if text == "" {
      assert text + s == s;
    } else {
      assert (text + s)[1..] == text[1..] + s && (text + s)[0] == text[0];
      SkipOne(text + s);
      TextIsSkipped(text[1..], s);
    }
  }

  lemma PieceIsParsed(p: Piece, rest: string)
    requires Proper(p) && |p.payload| <= ROOM
    ensures Payloads(p.text + [ESC, ']'] + p.payload + Terminator(p.st) + rest) == [p.payload] + Payloads(rest)
  {
    var body := p.payload + (Terminator(p.st) + rest);
    assert p.text + [ESC, ']'] + p.payload + Terminator(p.st) + rest == p.text + ([ESC, ']'] + body);
    TextIsSkipped(p.text, [ESC, ']'] + body);
    Opened(body);
    BodyEnds(p.payload, p.st, rest);
  }

  /** Every OSC string that fits is found, with either terminator and whatever text there is between. */
  lemma {:induction false} EmittedIsParsed(ps: seq<Piece>)
    requires forall i :: 0 <= i < |ps| ==> Proper(ps[i]) && |ps[i].payload| <= 255
    ensures Payloads(Emit(ps)) == Sent(ps)
  {
    if ps != [] {
      assert Proper(ps[0]);
      EmittedIsParsed(ps[1..]);
      PieceIsParsed(ps[0], Emit(ps[1..]));
    }
  }

  /** One that is too long is not: what follows its 256th byte is read as text. */
  lemma TooLongIsText(payload: string, more: char, rest: string)
    requires Plain(payload + [more]) && |payload| == 255
    ensures Payloads([ESC, ']'] + payload + [more] + rest) == Payloads(rest)
  {
    assert forall c :: c in payload ==> c in payload + [more];
    assert more in payload + [more];
    NextOverflows(payload, more, rest);
  }

  // -------------------------------------------------------------------- the tracker

  lemma Fresh(buf: string)
    requires buf == ""
    ensures Explains("", [], Idle, buf)
  {
    forall rest: string ensures ExplainsIf("", [], Idle, buf, rest) {
    }
  }

  /** The machine over a whole stream, from the start. */
  function Walk(s: string): (State, string) {
    if s == "" then (Idle, "")
    else
      var (st, buf) := Walk(s[..|s| - 1]);
      var n := Next(st, buf, s[|s| - 1]);
      (n.st, n.buf)
  }

  lemma {:induction false} WalkExplains(s: string)
    ensures var (st, buf) := Walk(s); Explains(s, Payloads(s), st, buf) && Plain(buf) && |buf| <= ROOM
  {
    if s == "" {
      Fresh("");
      SeenIsParsed("", [], Idle, "");
    } else {
      var p, b := s[..|s| - 1], s[|s| - 1];
      var (st, buf) := Walk(p);
      WalkExplains(p);
      ExplainsNext(p, Payloads(p), st, buf, b);
      NextIsPlain(st, buf, b);
      assert p + [b] == s;
      var n := Next(st, buf, b);
      assert |n.buf| <= ROOM;
      SeenIsParsed(s, Payloads(p) + n.found, n.st, n.buf);
    }
  }

  /** Where nothing is half read, an OSC string that comes next is the next one found. */
  lemma NextIsFound(earlier: string, p: Piece)
    requires Walk(earlier).0.Idle? && Proper(p) && |p.payload| <= ROOM
    ensures Payloads(earlier + (p.text + [ESC, ']'] + p.payload + Terminator(p.st))) == Payloads(earlier) + [p.payload]
  {
    hide Payloads, Walk, Terminator;
    var (st, buf) := Walk(earlier);
    var s := p.text + [ESC, ']'] + p.payload + Terminator(p.st);
    WalkExplains(earlier);
    IdleExplains(earlier, Payloads(earlier), buf, s);
    PieceIsParsed(p, "");
    NoneInNothing();
    assert s + "" == s;
  }

  lemma IdleExplains(fed: string, seen: seq<string>, buf: string, rest: string)
    requires Explains(fed, seen, Idle, buf)
    ensures Payloads(fed + rest) == seen + Payloads(rest)
  {
    assert ExplainsIf(fed, seen, Idle, buf, rest);
    assert Pending(Idle, buf) + rest == rest;
  }

  lemma NoneInNothing()
    ensures Payloads("") == []
  {
  }

  class BgColorTracker {
    var snifferState: State
    const oscBuf: array<char>
    var oscBufLen: nat
    var colorInitialized: bool
    var trackedR: nat
    var trackedG: nat
    var trackedB: nat
    ghost var before: seq<string>           // the OSC strings seen before the last reset
    ghost var fed: string                   // the bytes fed since
    ghost var seen: seq<string>             // and the OSC strings seen in them

    ghost predicate Colored()
      reads this`colorInitialized, this`trackedR, this`trackedG, this`trackedB, this`before, this`seen
    {
      var color := Background(Effects(before + seen));
      && colorInitialized == color.Some?
      && (colorInitialized ==> color.value == Rgb(trackedR, trackedG, trackedB))
    }

    ghost predicate Sniffs()
      reads this`snifferState, this`oscBufLen, this`fed, this`seen, oscBuf
    {
      && oscBuf.Length == ROOM + 1
      && oscBufLen <= ROOM
      && Plain(oscBuf[..oscBufLen])
      && Explains(fed, seen, snifferState, oscBuf[..oscBufLen])
    }

    ghost predicate Valid()
      reads this, oscBuf
    {
      Sniffs() && Colored()
    }

    constructor ()
      ensures Valid() && fresh(oscBuf) && before == [] && fed == "" && seen == [] && !colorInitialized
    {
      oscBuf := new char[ROOM + 1];
      snifferState, oscBufLen, colorInitialized := Idle, 0, false;
      trackedR, trackedG, trackedB := 0, 0, 0;
      before, fed, seen := [], "", [];
      new;
      Fresh(oscBuf[..0]);
    }

    /** tn_process_osc, on the bytes collected. */
    method ProcessOsc(payload: string)
      modifies this`colorInitialized, this`trackedR, this`trackedG, this`trackedB
      ensures var s := CString(payload);
              Tracked() == if s == "111" || "111;" <= s then None
                           else if "11;" <= s && ParseColor(s[3..]).Some? then ParseColor(s[3..])
                           else old(Tracked())
    {
      var s := CString(payload);
      if s == "11" {
        return;
      }
      if |s| >= 3 && s[0] == '1' && s[1] == '1' && s[2] == ';' {
        assert "11;" <= s;
        if s == "11;?" {
          return;
        }
        var c := ParseColor(s[3..]);
        if c.Some? {
          if !colorInitialized || c.value != Rgb(trackedR, trackedG, trackedB) {
            trackedR, trackedG, trackedB := c.value.r, c.value.g, c.value.b;
            colorInitialized := true;
          }
        }
        return;
      }
      if |s| >= 3 && s[0] == '1' && s[1] == '1' && s[2] == '1' && (|s| == 3 || s[3] == ';') {
        assert "111" <= s;
        colorInitialized := false;
      }
    }

    /** A NUL ends what has been collected, and it is looked at. */
    method Complete()
      requires Colored() && oscBuf.Length == ROOM + 1 && oscBufLen <= ROOM
      modifies this`colorInitialized, this`trackedR, this`trackedG, this`trackedB, this`seen, oscBuf
      ensures Colored() && Collected() == old(Collected())
      ensures seen == old(seen) + [old(Collected())]
    {
      oscBuf[oscBufLen] := '\0';
      NulEnds(oscBuf[..], oscBufLen);
      assert oscBuf[..][..oscBufLen] == oscBuf[..oscBufLen];
      Note(oscBuf[..], oscBuf[..oscBufLen]);
    }

    method Note(str: string, ghost payload: string)
      requires Colored() && CString(str) == CString(payload)
      modifies this`colorInitialized, this`trackedR, this`trackedG, this`trackedB, this`seen
      ensures Colored() && seen == old(seen) + [payload]
    {
      hide Effects, Background, EffectOf, ParseColor, CString;
      ghost var es := Effects(before + seen);
      EffectIs(payload);
      EffectsSnoc(before + seen, payload);
      Regrouped(before, seen, [payload]);
      seen := seen + [payload];
      assert Effects(before + seen) == es + [EffectOf(payload)];
      BackgroundSnoc(es, EffectOf(payload));
      ProcessOsc(str);
    }

    /** Discards a half-read OSC string and keeps the colour. */
    method ResetSniffer()
      requires Valid()
      modifies this`snifferState, this`oscBufLen, this`before, this`fed, this`seen
      ensures Valid() && fed == "" && before == old(before + Payloads(fed))
    {
      SeenIsParsed(fed, seen, snifferState, oscBuf[..oscBufLen]);
      snifferState, oscBufLen := Idle, 0;
      before, fed, seen := before + seen, "", [];
      Fresh(oscBuf[..0]);
      assert before + seen == before;
    }

    /** What has been collected of an OSC string. */
    ghost function Collected(): string
      requires oscBufLen <= oscBuf.Length
      reads this`oscBufLen, oscBuf
    {
      oscBuf[..oscBufLen]
    }

    /** One byte outside an OSC string. */
    method FeedText(b: char)
      requires oscBuf.Length == ROOM + 1 && oscBufLen <= ROOM && (snifferState.Idle? || snifferState.Escaped?)
      modifies this`snifferState, this`oscBufLen
      ensures oscBufLen <= ROOM
      ensures Step(snifferState, Collected(), []) == old(Next(snifferState, Collected(), b))
    {
      if snifferState.Idle? {
        if b == ESC {
          snifferState := Escaped;
        }
      } else if b == ']' {
        snifferState, oscBufLen := Osc, 0;
      } else if b != ESC {
        snifferState := Idle;
      }
    }

    /** A byte of the payload; the 256th gives it up. */
    method Collect(b: char)
      requires oscBuf.Length == ROOM + 1 && oscBufLen <= ROOM && snifferState.Osc? && b != BEL && b != ESC
      modifies this`snifferState, this`oscBufLen, oscBuf
      ensures oscBufLen <= ROOM
      ensures Step(snifferState, Collected(), []) == old(Next(snifferState, Collected(), b))
    {
      if oscBufLen < ROOM {
        oscBuf[oscBufLen] := b;
        oscBufLen := oscBufLen + 1;
      } else {
        snifferState, oscBufLen := Idle, 0;
      }
    }

    /** One byte inside an OSC string. */
    method FeedOsc(b: char) returns (complete: bool)
      requires Colored() && oscBuf.Length == ROOM + 1 && oscBufLen <= ROOM && snifferState.Osc?
      modifies this`snifferState, this`oscBufLen, this`seen, oscBuf
      modifies this`colorInitialized, this`trackedR, this`trackedG, this`trackedB
      ensures Colored() && oscBufLen <= ROOM
      ensures Step(snifferState, Collected(), if complete then [old(Collected())] else []) == old(Next(snifferState, Collected(), b))
      ensures seen == old(seen) + if complete then [old(Collected())] else []
    {
      hide Colored;
      complete := b == BEL;
      if b == BEL {
        snifferState := Idle;
        Complete();
      } else if b == ESC {
        snifferState := OscEscaped;
      } else {
        Collect(b);
      }
    }

    /** One byte after an ESC inside an OSC string. */
    method FeedAfterEscape(b: char) returns (complete: bool)
      requires Colored() && oscBuf.Length == ROOM + 1 && oscBufLen <= ROOM && snifferState.OscEscaped?
      modifies this`snifferState, this`oscBufLen, this`seen, oscBuf
      modifies this`colorInitialized, this`trackedR, this`trackedG, this`trackedB
      ensures Colored() && oscBufLen <= ROOM
      ensures Step(snifferState, Collected(), if complete then [old(Collected())] else []) == old(Next(snifferState, Collected(), b))
      ensures seen == old(seen) + if complete then [old(Collected())] else []
    {
      hide Colored;
      complete := b == '\\';
      if b == '\\' {
        snifferState := Idle;
        Complete();
      } else {
        snifferState, oscBufLen := Idle, 0;
        if b == ESC {
          snifferState := Escaped;
        }
      }
    }

    method Dispatch(b: char) returns (complete: bool)
      requires Colored() && oscBuf.Length == ROOM + 1 && oscBufLen <= ROOM
      modifies this`snifferState, this`oscBufLen, this`seen, oscBuf
      modifies this`colorInitialized, this`trackedR, this`trackedG, this`trackedB
      ensures Colored() && oscBufLen <= ROOM
      ensures Step(snifferState, Collected(), if complete then [old(Collected())] else []) == old(Next(snifferState, Collected(), b))
      ensures seen == old(seen) + if complete then [old(Collected())] else []
    {
      match snifferState
      case Osc => complete := FeedOsc(b);
      case OscEscaped => complete := FeedAfterEscape(b);
      case _ =>
        FeedText(b);
        complete := false;
    }

    /** One byte: whether it completes an OSC string of the stream fed since the last reset. */
    method FeedByte(b: char) returns (complete: bool)
      requires Valid()
      modifies this`snifferState, this`oscBufLen, this`fed, this`seen, oscBuf
      modifies this`colorInitialized, this`trackedR, this`trackedG, this`trackedB
      ensures Valid() && fed == old(fed) + [b]
      ensures Payloads(fed) == old(Payloads(fed)) + if complete then [old(Collected())] else []
    {
      SeenIsParsed(fed, seen, snifferState, Collected());
      ExplainsNext(fed, seen, snifferState, Collected(), b);
      NextIsPlain(snifferState, Collected(), b);
      complete := Dispatch(b);
      fed := fed + [b];
      SeenIsParsed(fed, seen, snifferState, Collected());
    }

    /** The terminal's output is fed byte by byte, one read after the other. */
    method Feed(chunk: string)
      requires Valid()
      modifies this`snifferState, this`oscBufLen, this`fed, this`seen, oscBuf
      modifies this`colorInitialized, this`trackedR, this`trackedG, this`trackedB
      ensures Valid() && fed == old(fed) + chunk && oscBufLen <= 255
      ensures Tracked() == Background(Effects(before + Payloads(fed)))
    {
      var i := 0;
      while i < |chunk|
        invariant 0 <= i <= |chunk| && Valid() && fed == old(fed) + chunk[..i]
      {
        assert old(fed) + chunk[..i + 1] == old(fed) + chunk[..i] + [chunk[i]];
        var _ := FeedByte(chunk[i]);
        i := i + 1;
      }
      assert chunk[..i] == chunk;
      SeenIsParsed(fed, seen, snifferState, oscBuf[..oscBufLen]);
    }

    /** The colour the fields hold. */
    function Tracked(): Option<Rgb>
      reads this`colorInitialized, this`trackedR, this`trackedG, this`trackedB
    {
      if colorInitialized then Some(Rgb(trackedR, trackedG, trackedB)) else None
    }
  }

  /** What any OSC string of at most 255 bytes does to the colour, wherever it is fed while
      nothing is half read: 111 resets it, 11 with a colour sets it, all others (queries and
      unreadable colours among them) leave it as it was. */
  lemma OscIsTracked(was: BgColorTracker, now: BgColorTracker, p: Piece)
    requires was.Valid() && now.Valid() && now.before == was.before
    requires Walk(was.fed).0.Idle? && Proper(p) && |p.payload| <= 255
    requires now.fed == was.fed + (p.text + [ESC, ']'] + p.payload + Terminator(p.st))
    ensures var s := CString(p.payload);
            now.Tracked() == if s == "111" || "111;" <= s then None
                             else if "11;" <= s && ParseColor(s[3..]).Some? then ParseColor(s[3..])
                             else was.Tracked()
  {
    NextIsFound(was.fed, p);
    SeenIsParsed(was.fed, was.seen, was.snifferState, was.oscBuf[..was.oscBufLen]);
    SeenIsParsed(now.fed, now.seen, now.snifferState, now.oscBuf[..now.oscBufLen]);
    var ps := was.before + was.seen;
    Regrouped(was.before, was.seen, [p.payload]);
    EffectsSnoc(ps, p.payload);
    BackgroundSnoc(Effects(ps), EffectOf(p.payload));
    EffectIs(p.payload);
  }

  lemma EffectIs(payload: string)
    ensures var s := CString(payload);
            EffectOf(payload) == if s == "111" || "111;" <= s then Reset
                                 else if "11;" <= s && ParseColor(s[3..]).Some? then Set(ParseColor(s[3..]).value)
                                 else Nothing
  {
  }

  /** How terminals write a background colour. */
  predicate Writes(payload: string, c: Rgb) {
    && c.r < 256 && c.g < 256 && c.b < 256
    && (|| payload == "11;" + ("rgb:" + (Hex2(c.r) + "/" + (Hex2(c.g) + "/" + Hex2(c.b))))
        || payload == "11;" + ("#" + Hex2(c.r) + Hex2(c.g) + Hex2(c.b))
        || (c.r % 17 == c.g % 17 == c.b % 17 == 0
            && payload == "11;" + ("#" + [HexChar(c.r / 17), HexChar(c.g / 17), HexChar(c.b / 17)])))
  }

  lemma WrittenIsRead(payload: string, c: Rgb)
    requires Writes(payload, c)
    ensures "11;" <= payload && payload[2] == ';' && ParseColor(payload[3..]) == Some(c)
  {
    hide ParseColor, Hex2, HexChar;
    var x, h := "rgb:" + (Hex2(c.r) + "/" + (Hex2(c.g) + "/" + Hex2(c.b))), "#" + Hex2(c.r) + Hex2(c.g) + Hex2(c.b);
    XFormRoundTrip(c.r, c.g, c.b);
    HexFormRoundTrip(c.r, c.g, c.b);
    assert ("11;" + x)[3..] == x && ("11;" + h)[3..] == h;
    if c.r % 17 == c.g % 17 == c.b % 17 == 0 {
      var s := "#" + [HexChar(c.r / 17), HexChar(c.g / 17), HexChar(c.b / 17)];
      ShortFormDoubles(c.r / 17, c.g / 17, c.b / 17);
      assert ("11;" + s)[3..] == s;
    }
  }

  lemma WrittenIsPlain(payload: string, c: Rgb)
    requires Writes(payload, c)
    ensures Plain(payload) && |payload| <= 15 && '\0' !in payload
  {
    hide HexChar;
    assert forall i :: 0 <= i < |payload| ==> ' ' <= payload[i] <= '~' by {
      HexIsPrintable();
    }
  }

  lemma HexIsPrintable()
    ensures forall n: nat :: n < 16 ==> ' ' <= HexChar(n) <= '~'
  {
  }

  /** A background colour in any of the three forms, with either terminator, is the colour
      that is tracked. */
  lemma ColorsAreTracked(was: BgColorTracker, now: BgColorTracker, p: Piece, c: Rgb)
    requires was.Valid() && now.Valid() && now.before == was.before && Walk(was.fed).0.Idle? && ESC !in p.text
    requires Writes(p.payload, c)
    requires now.fed == was.fed + (p.text + [ESC, ']'] + p.payload + Terminator(p.st))
    ensures now.Tracked() == Some(c)
  {
    hide Writes, ParseColor, CString, Walk;
    WrittenIsRead(p.payload, c);
    WrittenIsPlain(p.payload, c);
    NoNul(p.payload);
    OscIsTracked(was, now, p);
  }
}
