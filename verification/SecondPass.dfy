/**
 Interpolating what has been interpolated: which references a pass leaves to
 be read, and exactly when a second pass changes nothing.
 */
module SecondPass {
  import opened Option
  import opened Placeholders

  type Good = string -> bool

  /** A reference that starts `s`, if there is one, is good. */
  predicate GoodAt(s: string, accept: Accept, good: Good) {
    var body := MatchAt(s, accept);
    body.Some? ==> good(body.value)
  }

  /** In `text + rest`, every reference that starts within `text` is good. */
  ghost predicate GoodFrom(text: string, rest: string, accept: Accept, good: Good) {
    forall o :: 0 <= o < |text| ==> GoodAt(text[o..] + rest, accept, good)
  }

  ghost predicate AllGood(s: string, accept: Accept, good: Good) {
    forall o :: 0 <= o < |s| ==> GoodAt(s[o..], accept, good)
  }

  lemma SuffixOf(text: string, rest: string, o: nat)
    requires o <= |text + rest|
    ensures (text + rest)[o..] == if o <= |text| then text[o..] + rest else rest[o - |text|..]
  {
  }

  lemma AllGoodConcat(text: string, rest: string, accept: Accept, good: Good)
    ensures AllGood(text + rest, accept, good) <==> GoodFrom(text, rest, accept, good) && AllGood(rest, accept, good)
  {
    forall o | 0 <= o < |text + rest|
      ensures GoodAt((text + rest)[o..], accept, good) <==>
              if o < |text| then GoodAt(text[o..] + rest, accept, good) else GoodAt(rest[o - |text|..], accept, good)
    {
      SuffixOf(text, rest, o);
    }
    if AllGood(text + rest, accept, good) {
      forall o | 0 <= o < |rest|
        ensures GoodAt(rest[o..], accept, good)
      {
        assert GoodAt((text + rest)[|text| + o..], accept, good);
      }
    }
  }

  // ---- Where references can start ----

  /** No reference starts at a character other than `{`, nor before one. */
  lemma StartsNowhere(s: string, accept: Accept)
    requires |s| < 2 || s[0] != '{' || s[1] != '{'
    ensures MatchAt(s, accept).None?
  {
  }

  lemma BraceFreeIsGood(text: string, rest: string, accept: Accept, good: Good)
    requires '{' !in text
    ensures GoodFrom(text, rest, accept, good)
  {
    forall o | 0 <= o < |text|
      ensures GoodAt(text[o..] + rest, accept, good)
    {
      assert (text[o..] + rest)[0] == text[o] && text[o] in text;
    }
  }

  /** Within a reference only that reference starts. */
  lemma BracedIsGoodIff(body: string, rest: string, accept: Accept, good: Good)
    requires BraceFree(body) && body != "" && accept(body)
    ensures GoodFrom(Braced(body), rest, accept, good) <==> good(body)
  {
    var text := Braced(body);
    MatchOfBraced(body, rest, accept);
    assert text[0..] == text;
    assert GoodAt(text[0..] + rest, accept, good) <==> good(body);
    forall o | 1 <= o < |text|
      ensures GoodAt(text[o..] + rest, accept, good)
    {
      var s := text[o..] + rest;
      assert s[0] == text[o];
      if o == 1 {
        assert s[1] == text[2] == body[0] && body[0] in body;
      } else if o - 2 < |body| {
        assert text[o] == body[o - 2] && body[o - 2] in body;
      } else {
        assert text[o] == '}';
      }
      StartsNowhere(s, accept);
    }
  }

  // ---- When a pass changes nothing ----

  function Braces(s: string): nat {
    if s == "" then 0 else (if s[0] == '{' then 1 else 0) + Braces(s[1..])
  }

  lemma {:induction false} BracesConcat(a: string, b: string)
    ensures Braces(a + b) == Braces(a) + Braces(b)
  {
    if a == "" {
      assert a + b == b;
    } else {
      assert (a + b)[1..] == a[1..] + b;
      BracesConcat(a[1..], b);
    }
  }

  lemma {:induction false} NoBraces(s: string)
    requires '{' !in s
    ensures Braces(s) == 0
  {
    if s == "" {
    } else {
      assert s[0] in s;
      NoBraces(s[1..]);
    }
  }

  lemma BracesOfBraced(body: string)
    requires BraceFree(body)
    ensures Braces(Braced(body)) == 2
  {
    BracesConcat("{{" + body, "}}");
    BracesConcat("{{", body);
    NoBraces(body);
    NoBraces("}}");
    assert "{{"[1..] == "{" && "{"[1..] == "";
  }

  /** The reference has no value, and stays as written. */
  function Unfilled(resolve: Resolve): Good {
    body => resolve(body).None?
  }

  /** The reference has no value, or one with at most one `{`. */
  function Flat(resolve: Resolve): Good {
    body => resolve(body).Some? ==> Braces(resolve(body).value) <= 1
  }

  /** Each step of a pass: a reference at the front, or a character that is kept. */
  lemma PassStep(s: string, accept: Accept, resolve: Resolve, good: Good)
    requires s != "" && !accept("")
    ensures var body := MatchAt(s, accept);
            if body.Some? then
              var rest := s[|body.value| + 4..];
              && Replace(s, accept, resolve) == Output(body.value, resolve) + Replace(rest, accept, resolve)
              && Braces(s) == 2 + Braces(rest)
              && (AllGood(s, accept, good) <==> good(body.value) && AllGood(rest, accept, good))
            else
              && Replace(s, accept, resolve) == [s[0]] + Replace(s[1..], accept, resolve)
              && (AllGood(s, accept, good) <==> AllGood(s[1..], accept, good))
  {
    var body := MatchAt(s, accept);
    if body.Some? {
      var rest := s[|body.value| + 4..];
      MatchSplits(s, accept);
      BracesConcat(Braced(body.value), rest);
      BracesOfBraced(body.value);
      AllGoodConcat(Braced(body.value), rest, accept, good);
      BracedIsGoodIff(body.value, rest, accept, good);
    } else {
      OneIsGood(s, accept, good);
      AllGoodConcat([s[0]], s[1..], accept, good);
      assert [s[0]] + s[1..] == s;
    }
  }

  lemma OneIsGood(s: string, accept: Accept, good: Good)
    requires s != ""
    ensures GoodFrom([s[0]], s[1..], accept, good) <==> GoodAt(s, accept, good)
  {
    assert [s[0]][0..] + s[1..] == s;
  }

  /** A pass never adds a `{`, and loses one if it fills in anything. */
  lemma {:induction false} PassLosesBraces(s: string, accept: Accept, resolve: Resolve)
    requires !accept("") && AllGood(s, accept, Flat(resolve))
    ensures Braces(Replace(s, accept, resolve)) <= Braces(s)
    ensures !AllGood(s, accept, Unfilled(resolve)) ==> Braces(Replace(s, accept, resolve)) < Braces(s)
  {
    if s == "" {
    } else {
      var body := MatchAt(s, accept);
      PassStep(s, accept, resolve, Flat(resolve));
      PassStep(s, accept, resolve, Unfilled(resolve));
      if body.Some? {
        var rest := s[|body.value| + 4..];
        PassLosesBraces(rest, accept, resolve);
        BracesConcat(Output(body.value, resolve), Replace(rest, accept, resolve));
        if resolve(body.value).None? { BracesOfBraced(body.value); }
      } else {
        PassLosesBraces(s[1..], accept, resolve);
        BracesConcat([s[0]], Replace(s[1..], accept, resolve));
      }
    }
  }

  lemma {:induction false} UnfilledIsKept(s: string, accept: Accept, resolve: Resolve)
    requires !accept("") && AllGood(s, accept, Unfilled(resolve))
    ensures Replace(s, accept, resolve) == s
  {
    if s == "" {
    } else {
      var body := MatchAt(s, accept);
      PassStep(s, accept, resolve, Unfilled(resolve));
      if body.Some? {
        MatchSplits(s, accept);
        UnfilledIsKept(s[|body.value| + 4..], accept, resolve);
      } else {
        UnfilledIsKept(s[1..], accept, resolve);
      }
    }
  }

  /** A pass keeps a text exactly when no reference that can be read anywhere in it has a value. */
  lemma KeptIff(s: string, accept: Accept, resolve: Resolve)
    requires !accept("") && AllGood(s, accept, Flat(resolve))
    ensures Replace(s, accept, resolve) == s <==> AllGood(s, accept, Unfilled(resolve))
  {
    PassLosesBraces(s, accept, resolve);
    if AllGood(s, accept, Unfilled(resolve)) { UnfilledIsKept(s, accept, resolve); }
  }

  // ---- What a pass leaves to be read ----

  /** What can be read, after the pass, from a position in what piece `i` left is good. */
  ghost predicate PieceIsGood(ps: seq<Piece>, i: nat, accept: Accept, resolve: Resolve, good: Good)
    requires i < |ps|
  {
    GoodFrom(Written(ps[i], resolve), Render(ps[i + 1..], resolve), accept, good)
  }

  lemma {:induction false} RenderIsGoodIff(ps: seq<Piece>, accept: Accept, resolve: Resolve, good: Good)
    ensures AllGood(Render(ps, resolve), accept, good) <==>
            forall i :: 0 <= i < |ps| ==> PieceIsGood(ps, i, accept, resolve, good)
  {
    if ps == [] {
    } else {
      var tail := ps[1..];
      AllGoodConcat(Written(ps[0], resolve), Render(tail, resolve), accept, good);
      RenderIsGoodIff(tail, accept, resolve, good);
      forall i | 0 <= i < |ps|
        ensures PieceIsGood(ps, i, accept, resolve, good) <==>
                if i == 0 then GoodFrom(Written(ps[0], resolve), Render(tail, resolve), accept, good)
                else PieceIsGood(tail, i - 1, accept, resolve, good)
      {
        if i > 0 { assert tail[i..] == ps[i + 1..]; }
      }
      if forall i :: 0 <= i < |ps| ==> PieceIsGood(ps, i, accept, resolve, good) {
        forall j | 0 <= j < |tail|
          ensures PieceIsGood(tail, j, accept, resolve, good)
        {
          assert PieceIsGood(ps, j + 1, accept, resolve, good);
        }
        assert PieceIsGood(ps, 0, accept, resolve, good);
      }
    }
  }

  /** From the literal or the value that piece `i` leaves, a reference with a value can be read. */
  ghost predicate Opens(ps: seq<Piece>, i: nat, accept: Accept, resolve: Resolve)
    requires i < |ps|
  {
    && (ps[i].Ref? ==> resolve(ps[i].body).Some?)
    && !PieceIsGood(ps, i, accept, resolve, Unfilled(resolve))
  }

  /**
   Two passes equal one exactly when no piece opens a reference with a value;
   if such a value has more than one `{`, it may happen to spell what it replaces.
   */
  lemma TwiceIsOnceIff(s: string, accept: Accept, resolve: Resolve)
    requires !accept("")
    ensures var ps, once := Read(s, accept), Replace(s, accept, resolve);
            var idle := Replace(once, accept, resolve) == once;
            && ((forall i :: 0 <= i < |ps| ==> !Opens(ps, i, accept, resolve)) ==> idle)
            && (AllGood(once, accept, Flat(resolve)) ==>
                  (idle <==> forall i :: 0 <= i < |ps| ==> !Opens(ps, i, accept, resolve)))
  {
    var ps, once := Read(s, accept), Replace(s, accept, resolve);
    ReadIsReading(s, accept);
    ReadingDeterminesReplace(ps, accept, resolve);
    RenderIsGoodIff(ps, accept, resolve, Unfilled(resolve));
    forall i | 0 <= i < |ps|
      ensures PieceIsGood(ps, i, accept, resolve, Unfilled(resolve)) <==> !Opens(ps, i, accept, resolve)
    {
      if ps[i].Ref? && resolve(ps[i].body).None? { KeptRefIsGood(ps, i, accept, resolve); }
    }
    if AllGood(once, accept, Unfilled(resolve)) { UnfilledIsKept(once, accept, resolve); }
    if AllGood(once, accept, Flat(resolve)) { KeptIff(once, accept, resolve); }
  }

  lemma {:induction false} PiecesOfReading(ps: seq<Piece>, i: nat, accept: Accept)
    requires Reading(ps, accept) && i < |ps|
    ensures ps[i].Ref? ==> accept(ps[i].body) && BraceFree(ps[i].body)
    ensures ps[i].Literal? ==> ps[i].text != "" && (i + 1 < |ps| ==> ps[i + 1].Ref?)
  {
    if i == 0 {
    } else {
      PiecesOfReading(ps[1..], i - 1, accept);
    }
  }

  lemma KeptRefIsGood(ps: seq<Piece>, i: nat, accept: Accept, resolve: Resolve)
    requires Reading(ps, accept) && !accept("") && i < |ps| && ps[i].Ref? && resolve(ps[i].body).None?
    ensures PieceIsGood(ps, i, accept, resolve, Unfilled(resolve))
  {
    PiecesOfReading(ps, i, accept);
    BracedIsGoodIff(ps[i].body, Render(ps[i + 1..], resolve), accept, Unfilled(resolve));
  }

  // ---- Texts without stray openers, values without braces ----

  predicate HasOpener(s: string) {
    exists i :: 0 <= i < |s| - 1 && s[i] == '{' && s[i + 1] == '{'
  }

  predicate EndsOpen(s: string) {
    s != "" && s[|s| - 1] == '{'
  }

  /** No literal contains `{{`, and the values filled in have no braces. */
  ghost predicate Tidy(ps: seq<Piece>, resolve: Resolve) {
    forall i :: 0 <= i < |ps| ==>
      if ps[i].Literal? then !HasOpener(ps[i].text)
      else resolve(ps[i].body).Some? ==> BraceFree(resolve(ps[i].body).value)
  }

  /** A `{`, then a reference filled in with nothing, then the rest of a reference with a value. */
  ghost predicate Reopens(ps: seq<Piece>, i: nat, accept: Accept, resolve: Resolve)
    requires i + 1 < |ps|
  {
    && ps[i].Literal? && EndsOpen(ps[i].text)
    && ps[i + 1].Ref? && resolve(ps[i + 1].body) == Some("")
    && !GoodAt("{" + Render(ps[i + 2..], resolve), accept, Unfilled(resolve))
  }

  lemma LiteralIsGoodIff(text: string, rest: string, accept: Accept, good: Good)
    requires text != "" && !HasOpener(text)
    ensures GoodFrom(text, rest, accept, good) <==> (EndsOpen(text) ==> GoodAt("{" + rest, accept, good))
  {
    var last := |text| - 1;
    forall o | 0 <= o < last
      ensures GoodAt(text[o..] + rest, accept, good)
    {
      assert (text[o..] + rest)[0] == text[o] && (text[o..] + rest)[1] == text[o + 1];
      StartsNowhere(text[o..] + rest, accept);
    }
    assert text[last..] == [text[last]];
    if !EndsOpen(text) { StartsNowhere(text[last..] + rest, accept); }
    assert GoodAt(text[last..] + rest, accept, good) <==> (EndsOpen(text) ==> GoodAt("{" + rest, accept, good));
  }

  /** Of three opening braces in a row, the first starts no reference. */
  lemma ThirdBraceIsKept(rest: string, accept: Accept)
    requires |rest| >= 2 && rest[0] == '{' && rest[1] == '{'
    ensures MatchAt("{" + rest, accept).None?
  {
    var s := "{" + rest;
    assert s[1] == rest[0] && s[2] == rest[1] && s[2..][0] == s[2];
    assert Run(s[2..]) == 0;
  }

  lemma LiteralOpensIff(ps: seq<Piece>, i: nat, accept: Accept, resolve: Resolve)
    requires Reading(ps, accept) && Tidy(ps, resolve) && i < |ps| && ps[i].Literal?
    ensures Opens(ps, i, accept, resolve) <==> i + 1 < |ps| && Reopens(ps, i, accept, resolve)
  {
    var rest := Render(ps[i + 1..], resolve);
    PiecesOfReading(ps, i, accept);
    LiteralIsGoodIff(ps[i].text, rest, accept, Unfilled(resolve));
    if i + 1 < |ps| {
      var r := ps[i + 1];
      assert ps[i + 1..][0] == r && ps[i + 1..][1..] == ps[i + 2..];
      assert rest == Output(r.body, resolve) + Render(ps[i + 2..], resolve);
      if resolve(r.body).None? {
        ThirdBraceIsKept(rest, accept);
      } else if resolve(r.body).value != "" {
        assert rest[0] == resolve(r.body).value[0] && resolve(r.body).value[0] in resolve(r.body).value;
        StartsNowhere("{" + rest, accept);
      } else {
        assert rest == Render(ps[i + 2..], resolve);
      }
    } else {
      StartsNowhere("{" + rest, accept);
    }
  }

  /**
   On such texts the only thing a second pass can find is a reference that an
   empty value opens behind a literal `{`.
   */
  lemma TidyTwiceIsOnceIff(s: string, accept: Accept, resolve: Resolve)
    requires !accept("") && Tidy(Read(s, accept), resolve)
    ensures var ps, once := Read(s, accept), Replace(s, accept, resolve);
            var idle := Replace(once, accept, resolve) == once;
            && ((forall i :: 0 <= i < |ps| - 1 ==> !Reopens(ps, i, accept, resolve)) ==> idle)
            && (AllGood(once, accept, Flat(resolve)) ==>
                  (idle <==> forall i :: 0 <= i < |ps| - 1 ==> !Reopens(ps, i, accept, resolve)))
  {
    var ps := Read(s, accept);
    ReadIsReading(s, accept);
    TwiceIsOnceIff(s, accept, resolve);
    forall i | 0 <= i < |ps|
      ensures Opens(ps, i, accept, resolve) <==> i + 1 < |ps| && Reopens(ps, i, accept, resolve)
    {
      if ps[i].Literal? {
        LiteralOpensIff(ps, i, accept, resolve);
      } else if resolve(ps[i].body).Some? {
        BraceFreeIsGood(resolve(ps[i].body).value, Render(ps[i + 1..], resolve), accept, Unfilled(resolve));
      }
    }
  }

  // ---- A text that a second pass changes ----

  /** A reference to `b` that lacks its first brace. */
  function Headless(b: string): string {
    "{" + (b + "}}")
  }

  lemma HeadlessIsHeadless(b: string)
    ensures "{" + Headless(b) == Braced(b)
  {
  }

  lemma HeadlessIsKept(b: string, accept: Accept, resolve: Resolve)
    requires BraceFree(b) && b != ""
    ensures Replace(Headless(b), accept, resolve) == Headless(b)
  {
    var s := Headless(b);
    assert s[1..] == b + "}}" && s[1] == b[0] && b[0] in b;
    assert s + "" == s;
    NoBraceNoMatch(s[1..], "", accept);
    ReplaceKeeps(s, "", accept, resolve);
  }

  /**
   The condition on empty values is needed: a literal `{` before a reference
   filled in with nothing can open a new reference. The second pass changes the
   text exactly when that reference has a value other than its own text.
   */
  lemma EmptyValueReopens(a: string, b: string, accept: Accept, resolve: Resolve)
    requires BraceFree(a) && BraceFree(b) && accept(a) && accept(b) && !accept("")
    requires resolve(a) == Some("")
    ensures var once := Replace("{" + (Braced(a) + Headless(b)), accept, resolve);
            && once == Braced(b)
            && Replace(once, accept, resolve) == Output(b, resolve)
            && (Replace(once, accept, resolve) != once <==> resolve(b).Some? && resolve(b).value != Braced(b))
  {
    var mid := Braced(a) + Headless(b);
    assert Replace(mid, accept, resolve) == Headless(b) by {
      ReplaceMatch(a, Headless(b), accept, resolve);
      HeadlessIsKept(b, accept, resolve);
      assert "" + Headless(b) == Headless(b);
    }
    assert Replace("{" + mid, accept, resolve) == "{" + Headless(b) by {
      ThirdBraceIsKept(mid, accept);
      assert ("{" + mid)[1..] == mid;
    }
    HeadlessIsHeadless(b);
    ReplaceLoneMatch(b, accept, resolve);
  }

  /**
   With more braces in the values it is not decided reference by reference: here
   both references have a value, none their own text, and a pass changes nothing.
   */
  lemma BracesCanBalance(a: string, b: string, accept: Accept, resolve: Resolve)
    requires BraceFree(a) && BraceFree(b) && accept(a) && accept(b)
    requires resolve(a) == Some(Braced(a) + Braced(b)) && resolve(b) == Some("")
    ensures Replace(Braced(a) + Braced(b), accept, resolve) == Braced(a) + Braced(b)
  {
    ReplaceLoneMatch(b, accept, resolve);
    ReplaceMatch(a, Braced(b), accept, resolve);
    assert Braced(a) + Braced(b) + "" == Braced(a) + Braced(b);
  }
}
