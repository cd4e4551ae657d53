/**
 The engine under src/utils/envInterpolation.ts and
 src/utils/connectionStrings.ts: `String.replace` with a global pattern of the
 form `{{` body `}}`, where every body the pattern accepts is free of braces.
 */
module Placeholders {
  import opened Option

  type Accept = string -> bool
  type Resolve = string -> Option<string>

  predicate BraceFree(s: string) {
    '{' !in s && '}' !in s
  }

  /** The longest prefix without braces. */
  function Run(s: string): (n: nat)
    ensures n <= |s| && BraceFree(s[..n])
    ensures n < |s| ==> s[n] in {'{', '}'}
  {
    if s == "" || s[0] in {'{', '}'} then 0
    else
      var n := Run(s[1..]);
      assert s[..n + 1] == [s[0]] + s[1..][..n];
      n + 1
  }

  function Braced(body: string): string {
    "{{" + body + "}}"
  }

  /** The body of the match at the start of `s`, if there is one. */
  function MatchAt(s: string, accept: Accept): (body: Option<string>)
    ensures body.Some? ==> Braced(body.value) <= s && accept(body.value) && BraceFree(body.value)
  {
    if |s| < 2 || s[0] != '{' || s[1] != '{' then None
    else
      var n := Run(s[2..]);
      if n + 4 <= |s| && s[n + 2] == '}' && s[n + 3] == '}' && accept(s[2..n + 2]) then
        assert s[..n + 4] == Braced(s[2..n + 2]);
        Some(s[2..n + 2])
      else None
  }

  function Output(body: string, resolve: Resolve): string {
    var value := resolve(body);
    if value.Some? then value.value else Braced(body)
  }

  /** The replacement, left to right: a match is replaced and skipped, any other character is kept. */
  function Replace(s: string, accept: Accept, resolve: Resolve): string {
    if s == "" then ""
    else
      var body := MatchAt(s, accept);
      if body.Some? then Output(body.value, resolve) + Replace(s[|body.value| + 4..], accept, resolve)
      else [s[0]] + Replace(s[1..], accept, resolve)
  }

  // ---- The pieces of a text ----

  datatype Piece = Literal(text: string) | Ref(body: string)

  function Text(ps: seq<Piece>): string {
    if ps == [] then ""
    else (if ps[0].Literal? then ps[0].text else Braced(ps[0].body)) + Text(ps[1..])
  }

  function Written(p: Piece, resolve: Resolve): string {
    if p.Literal? then p.text else Output(p.body, resolve)
  }

  function Render(ps: seq<Piece>, resolve: Resolve): string {
    if ps == [] then "" else Written(ps[0], resolve) + Render(ps[1..], resolve)
  }

  /** In `text + rest`, no match starts within `text`. */
  predicate NoMatchIn(text: string, rest: string, accept: Accept) {
    text == "" || (MatchAt(text + rest, accept).None? && NoMatchIn(text[1..], rest, accept))
  }

  /**
   `ps` is a reading of the text it spells: references are accepted matches,
   literals are non-empty, never adjacent, and no match starts inside one.
   */
  ghost predicate Reading(ps: seq<Piece>, accept: Accept) {
    ps == [] ||
    (&& Reading(ps[1..], accept)
     && if ps[0].Ref? then accept(ps[0].body) && BraceFree(ps[0].body)
        else
          && ps[0].text != ""
          && (|ps| > 1 ==> ps[1].Ref?)
          && NoMatchIn(ps[0].text, Text(ps[1..]), accept))
  }

  function Keep(c: char, ps: seq<Piece>): seq<Piece> {
    if ps != [] && ps[0].Literal? then [Literal([c] + ps[0].text)] + ps[1..] else [Literal([c])] + ps
  }

  function Read(s: string, accept: Accept): seq<Piece> {
    if s == "" then []
    else
      var body := MatchAt(s, accept);
      if body.Some? then [Ref(body.value)] + Read(s[|body.value| + 4..], accept)
      else Keep(s[0], Read(s[1..], accept))
  }

  lemma Regroup(a: string, b: string, c: string)
    ensures (a + b) + c == a + (b + c)
  {
  }

  lemma NoMatchExtends(c: char, text: string, rest: string, accept: Accept)
    requires NoMatchIn(text, rest, accept) && MatchAt([c] + (text + rest), accept).None?
    ensures NoMatchIn([c] + text, rest, accept)
  {
    Regroup([c], text, rest);
    assert ([c] + text)[1..] == text;
  }

  lemma NoMatchInOne(c: char, rest: string, accept: Accept)
    requires MatchAt([c] + rest, accept).None?
    ensures NoMatchIn([c], rest, accept)
  {
    assert [c][1..] == "";
  }

  lemma LiteralIsReading(text: string, ps: seq<Piece>, accept: Accept)
    requires Reading(ps, accept) && (ps != [] ==> ps[0].Ref?)
    requires text != "" && NoMatchIn(text, Text(ps), accept)
    ensures Reading([Literal(text)] + ps, accept)
    ensures Text([Literal(text)] + ps) == text + Text(ps)
  {
    assert ([Literal(text)] + ps)[1..] == ps;
  }

  lemma KeepIsReading(c: char, ps: seq<Piece>, accept: Accept)
    requires Reading(ps, accept) && MatchAt([c] + Text(ps), accept).None?
    ensures Reading(Keep(c, ps), accept)
    ensures Text(Keep(c, ps)) == [c] + Text(ps)
  {
    if ps != [] && ps[0].Literal? {
      var text, rest := ps[0].text, Text(ps[1..]);
      NoMatchExtends(c, text, rest, accept);
      LiteralIsReading([c] + text, ps[1..], accept);
      Regroup([c], text, rest);
    } else {
      NoMatchInOne(c, Text(ps), accept);
      LiteralIsReading([c], ps, accept);
    }
  }

  lemma RefIsReading(body: string, ps: seq<Piece>, accept: Accept)
    requires Reading(ps, accept) && accept(body) && BraceFree(body)
    ensures Reading([Ref(body)] + ps, accept)
    ensures Text([Ref(body)] + ps) == Braced(body) + Text(ps)
  {
  }

  lemma MatchSplits(s: string, accept: Accept)
    requires MatchAt(s, accept).Some?
    ensures var body := MatchAt(s, accept).value;
            && |body| + 4 <= |s| && s == Braced(body) + s[|body| + 4..]
            && accept(body) && BraceFree(body)
  {
  }

  /** Every text has a reading, whose pieces spell the text. */
  lemma {:induction false} ReadIsReading(s: string, accept: Accept)
    ensures Reading(Read(s, accept), accept)
    ensures Text(Read(s, accept)) == s
  {
    if s == "" {
    } else {
      var body := MatchAt(s, accept);
      if body.Some? {
        var ps := Read(s[|body.value| + 4..], accept);
        MatchSplits(s, accept);
        ReadIsReading(s[|body.value| + 4..], accept);
        RefIsReading(body.value, ps, accept);
        assert Read(s, accept) == [Ref(body.value)] + ps;
      } else {
        var ps := Read(s[1..], accept);
        assert s == [s[0]] + s[1..];
        ReadIsReading(s[1..], accept);
        KeepIsReading(s[0], ps, accept);
        assert Read(s, accept) == Keep(s[0], ps);
      }
    }
  }

  lemma {:induction false} RunStopsAt(body: string, rest: string)
    requires BraceFree(body) && rest != "" && rest[0] in {'{', '}'}
    ensures Run(body + rest) == |body|
  {
    if body == "" {
      assert body + rest == rest;
    } else {
      assert (body + rest)[1..] == body[1..] + rest;
      RunStopsAt(body[1..], rest);
    }
  }

  lemma MatchOfBraced(body: string, rest: string, accept: Accept)
    requires BraceFree(body) && accept(body)
    ensures MatchAt(Braced(body) + rest, accept) == Some(body)
  {
    var s := Braced(body) + rest;
    assert s[2..] == body + ("}}" + rest);
    RunStopsAt(body, "}}" + rest);
    assert s[2..|body| + 2] == body;
  }

  /** Text in which no match starts is kept as it is. */
  lemma {:induction false} ReplaceKeeps(text: string, rest: string, accept: Accept, resolve: Resolve)
    requires NoMatchIn(text, rest, accept)
    ensures Replace(text + rest, accept, resolve) == text + Replace(rest, accept, resolve)
  {
    if text == "" {
      assert text + rest == rest;
    } else {
      var first, tail, kept := [text[0]], text[1..], Replace(rest, accept, resolve);
      ReplaceKeeps(tail, rest, accept, resolve);
      ReplaceSkips(text, rest, accept, resolve);
      Regroup(first, tail, kept);
      assert first + tail == text;
    }
  }

  lemma ReplaceSkips(text: string, rest: string, accept: Accept, resolve: Resolve)
    requires text != "" && MatchAt(text + rest, accept).None?
    ensures Replace(text + rest, accept, resolve) == [text[0]] + Replace(text[1..] + rest, accept, resolve)
  {
    var s := text + rest;
    assert s[0] == text[0] && s[1..] == text[1..] + rest;
  }

  /** Whatever reading a text has, the replacement renders it: the references in place, all else as it stood. */
  lemma {:induction false} ReadingDeterminesReplace(ps: seq<Piece>, accept: Accept, resolve: Resolve)
    requires Reading(ps, accept)
    ensures Replace(Text(ps), accept, resolve) == Render(ps, resolve)
  {
    if ps == [] {
    } else {
      ReadingDeterminesReplace(ps[1..], accept, resolve);
      if ps[0].Ref? {
        var body := ps[0].body;
        MatchOfBraced(body, Text(ps[1..]), accept);
        assert Text(ps)[|body| + 4..] == Text(ps[1..]);
      } else {
        ReplaceKeeps(ps[0].text, Text(ps[1..]), accept, resolve);
      }
    }
  }

  /** A text has only one reading. */
  lemma {:induction false} ReadingIsUnique(ps: seq<Piece>, accept: Accept)
    requires Reading(ps, accept)
    ensures Read(Text(ps), accept) == ps
  {
    if ps == [] {
    } else {
      ReadingIsUnique(ps[1..], accept);
      assert ps == [ps[0]] + ps[1..];
      if ps[0].Ref? {
        MatchOfBraced(ps[0].body, Text(ps[1..]), accept);
        assert Text(ps)[|ps[0].body| + 4..] == Text(ps[1..]);
      } else {
        assert |ps| > 1 ==> ps[1..][0] == ps[1];
        ReadLiteral(ps[0].text, Text(ps[1..]), accept);
      }
    }
  }

  lemma {:induction false} ReadLiteral(text: string, rest: string, accept: Accept)
    requires text != "" && NoMatchIn(text, rest, accept)
    requires Read(rest, accept) == [] || Read(rest, accept)[0].Ref?
    ensures Read(text + rest, accept) == [Literal(text)] + Read(rest, accept)
  {
    assert (text + rest)[1..] == text[1..] + rest;
    assert text == [text[0]] + text[1..];
    if text[1..] == "" {
      assert text[1..] + rest == rest && text == [text[0]];
    } else {
      ReadLiteral(text[1..], rest, accept);
      assert ([Literal(text[1..])] + Read(rest, accept))[1..] == Read(rest, accept);
    }
  }

  // ---- Single references ----

  lemma {:induction false} NoBraceNoMatch(text: string, rest: string, accept: Accept)
    requires '{' !in text
    ensures NoMatchIn(text, rest, accept)
  {
    if text == "" {
    } else {
      assert text[0] in text;
      NoBraceNoMatch(text[1..], rest, accept);
    }
  }

  lemma ReplaceMatch(body: string, rest: string, accept: Accept, resolve: Resolve)
    requires BraceFree(body) && accept(body)
    ensures Replace(Braced(body) + rest, accept, resolve) == Output(body, resolve) + Replace(rest, accept, resolve)
  {
    MatchOfBraced(body, rest, accept);
    assert (Braced(body) + rest)[|body| + 4..] == rest;
  }

  lemma ReplaceLoneMatch(body: string, accept: Accept, resolve: Resolve)
    requires BraceFree(body) && accept(body)
    ensures Replace(Braced(body), accept, resolve) == Output(body, resolve)
  {
    ReplaceMatch(body, "", accept, resolve);
    assert Braced(body) + "" == Braced(body);
    assert Output(body, resolve) + "" == Output(body, resolve);
  }

  /** The replacement depends on the resolver only through the bodies it accepts. */
  lemma {:induction false} ReplaceExtensional(s: string, accept: Accept, f: Resolve, g: Resolve)
    requires forall body :: accept(body) ==> f(body) == g(body)
    ensures Replace(s, accept, f) == Replace(s, accept, g)
  {
    if s == "" {
    } else {
      var body := MatchAt(s, accept);
      if body.Some? {
        ReplaceExtensional(s[|body.value| + 4..], accept, f, g);
      } else {
        ReplaceExtensional(s[1..], accept, f, g);
      }
    }
  }
}
