/**
 Unit tokens: sizes travel as text such as "512 @MIB@", and the client replaces each token
 by the unit in its own language.
 */
module UnitTokens {
  datatype Unit =
    | Bytes
    | KB | MB | GB | TB | PB | EB
    | KIB | MIB | GIB | TIB | PIB | EIB

  function Token(u: Unit): (t: string)
    ensures |t| == if u.KIB? || u.MIB? || u.GIB? || u.TIB? || u.PIB? || u.EIB? then 5 else 4
    ensures t[0] == '@' && t[|t| - 1] == '@' && t[1] != '@' && t[2] != '@' && (|t| == 5 ==> t[3] != '@')
  {
    match u
    case Bytes => "@0B@"
    case KB => "@KB@"
    case MB => "@MB@"
    case GB => "@GB@"
    case TB => "@TB@"
    case PB => "@PB@"
    case EB => "@EB@"
    case KIB => "@KIB@"
    case MIB => "@MIB@"
    case GIB => "@GIB@"
    case TIB => "@TIB@"
    case PIB => "@PIB@"
    case EIB => "@EIB@"
  }

  /** The translated name of each unit. */
  type Names = Unit -> string

  /** The name for a token of four characters, empty when there is no such token. */
  function Name4(t: string, names: Names): string {
    if t == Token(Bytes) then names(Bytes)
    else if t == Token(KB) then names(KB)
    else if t == Token(MB) then names(MB)
    else if t == Token(GB) then names(GB)
    else if t == Token(TB) then names(TB)
    else if t == Token(PB) then names(PB)
    else if t == Token(EB) then names(EB)
    else ""
  }

  function Name5(t: string, names: Names): string {
    if t == Token(KIB) then names(KIB)
    else if t == Token(MIB) then names(MIB)
    else if t == Token(GIB) then names(GIB)
    else if t == Token(TIB) then names(TIB)
    else if t == Token(PIB) then names(PIB)
    else if t == Token(EIB) then names(EIB)
    else ""
  }

  /** A token may be closed three or four characters after its opening sign. */
  predicate ClosedAt(s: string, i: nat, distance: nat) {
    i + distance < |s| && s[i + distance] == '@'
  }

  /** The position after one round of the loop at i. */
  function Advance(s: string, i: nat): nat
    requires i < |s|
  {
    if s[i] != '@' then i + 1
    else if ClosedAt(s, i, 3) then i + 4
    else if ClosedAt(s, i, 4) then i + 5
    else i
  }

  /** Every sign that the loop meets from i on opens a token that is closed. */
  predicate Closes(s: string, i: nat)
    decreases |s| - i
  {
    i < |s| ==> Advance(s, i) > i && Closes(s, Advance(s, i))
  }

  /** What one round at i contributes. */
  function Chunk(s: string, i: nat, names: Names): string
    requires i < |s|
  {
    if s[i] != '@' then [s[i]]
    else if ClosedAt(s, i, 3) then Name4(s[i..i + 4], names)
    else if ClosedAt(s, i, 4) then Name5(s[i..i + 5], names)
    else ""
  }

  /** The translation of s from i on. */
  function Translate(s: string, i: nat, names: Names): string
    requires Closes(s, i)
    decreases |s| - i
  {
    if i >= |s| then "" else Chunk(s, i, names) + Translate(s, Advance(s, i), names)
  }

  lemma TranslateRound(s: string, i: nat, names: Names)
    requires Closes(s, i) && i < |s|
    ensures Advance(s, i) > i && Closes(s, Advance(s, i))
    ensures Translate(s, i, names) == Chunk(s, i, names) + Translate(s, Advance(s, i), names)
  {
  }

  /** The text up to i has been translated to dst. */
  ghost predicate TranslatedTo(s: string, i: nat, dst: string, names: Names)
    requires Closes(s, 0) && Closes(s, i)
  {
    Translate(s, 0, names) == dst + Translate(s, i, names)
  }

  lemma TranslatedNone(s: string, names: Names)
    requires Closes(s, 0)
    ensures TranslatedTo(s, 0, "", names)
  {
  }

  lemma TranslatedMore(s: string, i: nat, dst: string, names: Names)
    requires Closes(s, 0) && Closes(s, i) && i < |s| && TranslatedTo(s, i, dst, names)
    ensures Advance(s, i) > i && Closes(s, Advance(s, i)) && TranslatedTo(s, Advance(s, i), dst + Chunk(s, i, names), names)
  {
    hide Closes, Translate, Chunk, Advance;
    TranslateRound(s, i, names);
    Regroup(Translate(s, 0, names), dst, Translate(s, i, names), Chunk(s, i, names), Translate(s, Advance(s, i), names));
  }

  lemma Regroup(whole: string, a: string, d: string, b: string, c: string)
    requires whole == a + d && d == b + c
    ensures whole == (a + b) + c
  {
  }

  lemma TranslatedAll(s: string, i: nat, dst: string, names: Names)
    requires Closes(s, 0) && Closes(s, i) && i >= |s| && TranslatedTo(s, i, dst, names)
    ensures dst == Translate(s, 0, names)
  {
    NothingLeft(s, i, names);
  }

  method SetSizeUnit(src: string, names: Names) returns (dst: string)
    requires Closes(src, 0)
    ensures dst == Translate(src, 0, names)
  {
    var i := 0;
    dst := "";
    hide Closes, Translate, Name4, Name5, TranslatedTo;
    TranslatedNone(src, names);
    while i < |src|
      invariant 0 <= i && Closes(src, i) && TranslatedTo(src, i, dst, names)
      decreases |src| - i
    {
      TranslatedMore(src, i, dst, names);
      if src[i] == '@' {
        var buff := "";
        if i + 3 < |src| && src[i + 3] == '@' {
          buff := Name4(src[i..i + 4], names);
          i := i + 4;
        } else if i + 4 < |src| && src[i + 4] == '@' {
          buff := Name5(src[i..i + 5], names);
          i := i + 5;
        }
        dst := dst + buff;
      } else {
        dst := dst + [src[i]];
        i := i + 1;
      }
    }
    TranslatedAll(src, i, dst, names);
  }

  lemma NothingLeft(s: string, i: nat, names: Names)
    requires Closes(s, i) && i >= |s|
    ensures Translate(s, i, names) == ""
  {
  }

  // ----- Termination

  /** The position after n rounds. */
  function Rounds(s: string, i: nat, n: nat): nat
    decreases n
  {
    if n == 0 || i >= |s| then i else Rounds(s, Advance(s, i), n - 1)
  }

  lemma {:induction false} StuckWhenOpen(s: string, i: nat, n: nat)
    requires !Closes(s, i)
    ensures Rounds(s, i, n) < |s|
    decreases n
  {
    if n > 0 {
      StuckWhenOpen(s, Advance(s, i), n - 1);
    }
  }

  lemma {:induction false} EndsWhenClosed(s: string, i: nat) returns (n: nat)
    requires Closes(s, i)
    ensures Rounds(s, i, n) >= |s|
    decreases |s| - i
  {
    if i >= |s| {
      return 0;
    }
    var m := EndsWhenClosed(s, Advance(s, i));
    n := m + 1;
  }

  /** One ordinary character, or two signs around two or three characters; a third one is no sign. */
  predicate Segment(t: string) {
    || (|t| == 1 && t[0] != '@')
    || (|t| == 4 && t[0] == '@' && t[3] == '@')
    || (|t| == 5 && t[0] == '@' && t[4] == '@' && t[3] != '@')
  }

  predicate AllSegments(ts: seq<string>) {
    forall k :: 0 <= k < |ts| ==> Segment(ts[k])
  }

  function Concat(ts: seq<string>): string {
    if ts == [] then "" else ts[0] + Concat(ts[1..])
  }

  /** The text consists of ordinary characters and closed tokens. */
  ghost predicate Splits(s: string) {
    exists ts :: AllSegments(ts) && Concat(ts) == s
  }

  lemma {:induction false} SplitFrom(s: string, i: nat) returns (ts: seq<string>)
    requires i <= |s| && Closes(s, i)
    ensures AllSegments(ts) && Concat(ts) == s[i..]
    decreases |s| - i
  {
    if i == |s| {
      ts := [];
    } else {
      var e := Advance(s, i);
      var rest := SplitFrom(s, e);
      ts := [s[i..e]] + rest;
      assert ts[1..] == rest;
      assert s[i..] == s[i..e] + s[e..];
    }
  }

  lemma {:induction false} SegmentsClose(s: string, i: nat, ts: seq<string>)
    requires i <= |s| && AllSegments(ts) && Concat(ts) == s[i..]
    ensures Closes(s, i)
    decreases |ts|
  {
    if ts != [] {
      var t := ts[0];
      assert Segment(t);
      var e := i + |t|;
      assert s[i..][|t|..] == s[e..] && forall k :: 0 <= k < |t| ==> s[i + k] == s[i..][k] == t[k];
      assert Concat(ts[1..]) == s[e..];
      SegmentsClose(s, e, ts[1..]);
      assert Advance(s, i) == e;
    }
  }

  lemma ClosesIffSplits(s: string)
    ensures Closes(s, 0) <==> Splits(s)
  {
    assert s[0..] == s;
    if Closes(s, 0) {
      var ts := SplitFrom(s, 0);
    }
    if Splits(s) {
      var ts :| AllSegments(ts) && Concat(ts) == s;
      SegmentsClose(s, 0, ts);
    }
  }

  /** The loop comes to an end exactly when the text consists of ordinary characters and closed tokens. */
  lemma EndsIffClosed(s: string)
    ensures (exists n :: Rounds(s, 0, n) >= |s|) <==> Splits(s)
  {
    ClosesIffSplits(s);
    hide Splits, Closes;
    if Closes(s, 0) {
      var n := EndsWhenClosed(s, 0);
    } else {
      forall n
        ensures Rounds(s, 0, n) < |s|
      {
        StuckWhenOpen(s, 0, n);
      }
    }
  }

  // ----- Meaning

  /** No sign is left in the translation as long as no unit name has one. */
  lemma {:induction false} NoSignLeft(s: string, i: nat, names: Names)
    requires Closes(s, i) && forall u :: '@' !in names(u)
    ensures '@' !in Translate(s, i, names)
    decreases |s| - i
  {
    if i < |s| {
      NoSignLeft(s, Advance(s, i), names);
    }
  }

  lemma TokenInjective(u: Unit, v: Unit)
    requires Token(u) == Token(v)
    ensures u == v
  {
    assert Token(u)[1] == Token(v)[1] && Token(u)[2] == Token(v)[2];
  }

  /** A token is spelled with the letter of its prefix, and the letter I when the prefix is binary. */
  lemma TokenSpelling(k: nat)
    requires k < 6
    ensures Token([KB, MB, GB, TB, PB, EB][k]) == ['@', "KMGTPE"[k]] + "B@"
    ensures Token([KIB, MIB, GIB, TIB, PIB, EIB][k]) == ['@', "KMGTPE"[k]] + "IB@"
  {
  }

  /** What a segment is shown as: itself, the name of its unit, or nothing when there is no such unit. */
  ghost function Meaning(t: string, names: Names): string {
    if |t| == 1 then t
    else if exists u :: Token(u) == t then
      var u :| Token(u) == t;
      names(u)
    else ""
  }

  ghost function MeaningOf(ts: seq<string>, names: Names): string {
    if ts == [] then "" else Meaning(ts[0], names) + MeaningOf(ts[1..], names)
  }

  lemma NameIsMeaning(t: string, names: Names)
    ensures |t| == 4 ==> Name4(t, names) == Meaning(t, names)
    ensures |t| == 5 ==> Name5(t, names) == Meaning(t, names)
  {
    if |t| != 1 && exists u :: Token(u) == t {
      var u :| Token(u) == t;
      forall v | Token(v) == t
        ensures v == u
      {
        TokenInjective(u, v);
      }
      NameOfToken(u, names);
    }
  }

  lemma NameOfToken(u: Unit, names: Names)
    ensures if |Token(u)| == 4 then Name4(Token(u), names) == names(u) else Name5(Token(u), names) == names(u)
  {
  }

  /** A text is translated segment by segment, in order; unknown tokens vanish. */
  lemma {:induction false} TranslateSegments(s: string, i: nat, ts: seq<string>, names: Names)
    requires i <= |s| && AllSegments(ts) && Concat(ts) == s[i..]
    ensures Closes(s, i) && Translate(s, i, names) == MeaningOf(ts, names)
    decreases |ts|
  {
    SegmentsClose(s, i, ts);
    hide Name4, Name5, Meaning, Closes;
    if ts == [] {
      NothingLeft(s, i, names);
    } else {
      var t := ts[0];
      var e := i + |t|;
      assert Segment(t) && Concat(ts) == t + Concat(ts[1..]);
      assert s[i..e] == s[i..][..|t|] == t && s[e..] == s[i..][|t|..] == Concat(ts[1..]);
      TranslateSegments(s, e, ts[1..], names);
      SegmentRound(s, i, t, names);
      TranslateRound(s, i, names);
    }
  }

  lemma SegmentRound(s: string, i: nat, t: string, names: Names)
    requires Segment(t) && i + |t| <= |s| && s[i..i + |t|] == t
    ensures i < |s| && Advance(s, i) == i + |t| && Chunk(s, i, names) == Meaning(t, names)
  {
    assert s[i] == s[i..i + |t|][0];
    if |t| == 1 {
      SingleMeaning(t, names);
    } else {
      assert s[i + 3] == s[i..i + |t|][3];
      assert |t| == 5 ==> s[i + 4] == s[i..i + |t|][4];
      NameIsMeaning(t, names);
      hide Name4, Name5, Meaning;
    }
  }

  lemma SingleMeaning(t: string, names: Names)
    requires |t| == 1
    ensures Meaning(t, names) == t == [t[0]]
  {
  }

  datatype Piece = Plain(text: string) | Tok(unit: Unit)

  /** Text as it is sent. */
  function Render(ps: seq<Piece>): string {
    if ps == [] then ""
    else (if ps[0].Plain? then ps[0].text else Token(ps[0].unit)) + Render(ps[1..])
  }

  /** Text as it is shown. */
  function Expand(ps: seq<Piece>, names: Names): string {
    if ps == [] then ""
    else (if ps[0].Plain? then ps[0].text else names(ps[0].unit)) + Expand(ps[1..], names)
  }

  predicate PlainOk(ps: seq<Piece>) {
    forall p :: p in ps && p.Plain? ==> '@' !in p.text
  }

  lemma {:induction false} CopyPlain(s: string, i: nat, e: nat, names: Names)
    requires i <= e <= |s| && Closes(s, e)
    requires forall k :: i <= k < e ==> s[k] != '@'
    ensures Closes(s, i) && Translate(s, i, names) == s[i..e] + Translate(s, e, names)
    decreases e - i
  {
    hide Closes, Translate;
    if i < e {
      CopyPlain(s, i + 1, e, names);
      CopyOne(s, i, names);
      assert s[i..e] == [s[i]] + s[i + 1..e];
    } else {
      assert s[i..e] == "";
    }
  }

  lemma CopyOne(s: string, i: nat, names: Names)
    requires i < |s| && s[i] != '@' && Closes(s, i + 1)
    ensures Closes(s, i) && Translate(s, i, names) == [s[i]] + Translate(s, i + 1, names)
  {
  }

  lemma ReplaceToken(s: string, i: nat, u: Unit, names: Names)
    requires i + |Token(u)| <= |s| && s[i..i + |Token(u)|] == Token(u) && Closes(s, i + |Token(u)|)
    ensures Closes(s, i) && Translate(s, i, names) == names(u) + Translate(s, i + |Token(u)|, names)
  {
    var t, n := Token(u), |Token(u)|;
    assert s[i] == s[i..i + n][0] && s[i + 3] == s[i..i + n][3];
    assert s[i + n - 1] == s[i..i + n][n - 1];
    assert Advance(s, i) == i + n;
    assert if n == 4 then Name4(t, names) == names(u) else Name5(t, names) == names(u);
  }

  lemma {:induction false} TranslateRenderedFrom(s: string, i: nat, ps: seq<Piece>, names: Names)
    requires i <= |s| && s[i..] == Render(ps) && PlainOk(ps)
    ensures Closes(s, i) && Translate(s, i, names) == Expand(ps, names)
    decreases |ps|
  {
    if ps == [] {
      assert i == |s|;
    } else {
      var head := if ps[0].Plain? then ps[0].text else Token(ps[0].unit);
      var e := i + |head|;
      assert s[i..e] == s[i..][..|head|] == head;
      assert s[e..] == s[i..][|head|..] == Render(ps[1..]);
      TranslateRenderedFrom(s, e, ps[1..], names);
      hide Translate, Closes, Name4, Name5;
      if ps[0].Plain? {
        assert ps[0] in ps;
        assert forall k :: i <= k < e ==> s[k] == head[k - i];
        CopyPlain(s, i, e, names);
      } else {
        ReplaceToken(s, i, ps[0].unit, names);
      }
    }
  }

  /** Text with tokens between sign-free pieces is translated piece by piece, in order. */
  lemma TranslateRendered(ps: seq<Piece>, names: Names)
    requires PlainOk(ps)
    ensures Closes(Render(ps), 0) && Translate(Render(ps), 0, names) == Expand(ps, names)
  {
    assert Render(ps)[0..] == Render(ps);
    TranslateRenderedFrom(Render(ps), 0, ps, names);
  }
}
