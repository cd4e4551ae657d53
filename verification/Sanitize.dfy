/**
 src/lib/audit.ts, sanitize: what of an event's payload may be persisted.
 */
module Sanitize {
  import opened Ascii
  import opened Decimals

  /**
   A payload. `Textual` is a bigint, function or symbol, which is written out
   with its string form; an object's fields are in entry order.
   */
  datatype Value =
    | Null | Undefined
    | Bool(b: bool)
    | Num(n: real)
    | Str(s: string)
    | Textual(text: string)
    | Arr(items: seq<Value>)
    | Obj(fields: seq<Field>)

  datatype Field = Field(key: string, value: Value)

  const MAX_STRING_LEN := 4_096
  const MAX_DEPTH := 6
  const MAX_ARRAY_LEN := 64
  const ELLIPSIS := "\U{2026}"
  const REDACTED := Str("[redacted]")
  const TOO_DEEP := Str("[truncated:depth]")

  const SECRET_KEYS := {
    "password", "passwd", "secret", "token", "authorization", "cookie", "set-cookie",
    "privatekey", "private_key", "private-key", "apikey", "api_key", "api-key",
    "jwt", "session", "card", "cvc", "cvv", "pan", "ssn"}

  predicate IsSecretKey(key: string) {
    Lower(key) in SECRET_KEYS
  }

  function Truncate(s: string, max: nat): string {
    if |s| > max then s[..max] + ELLIPSIS else s
  }

  function Marker(dropped: nat): Value {
    Str("[truncated:+" + Decimal(dropped) + "]")
  }

  function Min(a: nat, b: nat): nat {
    if a < b then a else b
  }

  function Sanitize(v: Value, depth: nat): Value
    decreases v
  {
    if depth > MAX_DEPTH then TOO_DEEP
    else
      match v
      case Str(s) => Str(Truncate(s, MAX_STRING_LEN))
      case Textual(text) => Str(text)
      case Arr(items) =>
        var kept := seq(Min(|items|, MAX_ARRAY_LEN), i requires 0 <= i < Min(|items|, MAX_ARRAY_LEN) =>
          Sanitize(items[i], depth + 1));
        Arr(if |items| > MAX_ARRAY_LEN then kept + [Marker(|items| - MAX_ARRAY_LEN)] else kept)
      case Obj(fields) =>
        Obj(seq(|fields|, i requires 0 <= i < |fields| =>
          Field(fields[i].key, if IsSecretKey(fields[i].key) then REDACTED else Sanitize(fields[i].value, depth + 1))))
      case _ => v
  }

  // ---- What becomes of each value ----

  /** The keys the pattern matches: its plain words, and the two with an optional `_` or `-`, in any case. */
  lemma SecretKeyMeaning(key: string)
    ensures IsSecretKey(key) <==>
            || Lower(key) in ["password", "passwd", "secret", "token", "authorization", "cookie", "set-cookie",
                              "jwt", "session", "card", "cvc", "cvv", "pan", "ssn"]
            || Lower(key) in ["private" + "key", "private" + "_" + "key", "private" + "-" + "key"]
            || Lower(key) in ["api" + "key", "api" + "_" + "key", "api" + "-" + "key"]
  {
    assert "private" + "key" == "privatekey" && "private" + "_" + "key" == "private_key" &&
           "private" + "-" + "key" == "private-key";
    assert "api" + "key" == "apikey" && "api" + "_" + "key" == "api_key" && "api" + "-" + "key" == "api-key";
  }

  /** Scalars are kept, a bigint, function or symbol becomes its text, a long string its first 4096 characters. */
  lemma ScalarMeaning(v: Value, depth: nat)
    requires depth <= 6
    ensures v in {Null, Undefined} || v.Bool? || v.Num? ==> Sanitize(v, depth) == v
    ensures v.Textual? ==> Sanitize(v, depth) == Str(v.text)
    ensures v.Str? && |v.s| <= 4_096 ==> Sanitize(v, depth) == v
    ensures v.Str? && |v.s| > 4_096 ==>
              var out := Sanitize(v, depth);
              out.Str? && |out.s| == 4_097 && out.s[..4_096] == v.s[..4_096] && out.s[4_096] == '\U{2026}'
  {
  }

  /** An array keeps its first 64 items, sanitised one level deeper, and a marker with the number dropped. */
  lemma {:induction false} ArrayMeaning(items: seq<Value>, depth: nat)
    requires depth <= 6
    ensures var out := Sanitize(Arr(items), depth);
            && out.Arr? && |out.items| == (if |items| <= 64 then |items| else 65)
            && (forall i :: 0 <= i < |items| && i < 64 ==> out.items[i] == Sanitize(items[i], depth + 1))
            && (|items| > 64 ==> out.items[64] == Str("[truncated:+" + Decimal(|items| - 64) + "]"))
  {
  }

  /** An object keeps its keys in order; a secret one loses its value, any other is sanitised one level deeper. */
  lemma {:induction false} ObjectMeaning(fields: seq<Field>, depth: nat)
    requires depth <= 6
    ensures var out := Sanitize(Obj(fields), depth);
            && out.Obj? && |out.fields| == |fields|
            && forall i :: 0 <= i < |fields| ==>
                 && out.fields[i].key == fields[i].key
                 && out.fields[i].value ==
                    if IsSecretKey(fields[i].key) then Str("[redacted]") else Sanitize(fields[i].value, depth + 1)
  {
  }

  lemma TooDeepMeaning(v: Value, depth: nat)
    requires depth > 6
    ensures Sanitize(v, depth) == Str("[truncated:depth]")
  {
  }

  // ---- What comes out ----

  /** At every level, the value under a secret key is the redaction mark. */
  predicate NoSecrets(v: Value)
    decreases v
  {
    match v
    case Arr(items) => forall i | 0 <= i < |items| :: NoSecrets(items[i])
    case Obj(fields) => forall i | 0 <= i < |fields| ::
      (IsSecretKey(fields[i].key) ==> fields[i].value == REDACTED) && NoSecrets(fields[i].value)
    case _ => true
  }

  predicate ArraysWithin(v: Value, max: nat)
    decreases v
  {
    match v
    case Arr(items) => |items| <= max && forall i | 0 <= i < |items| :: ArraysWithin(items[i], max)
    case Obj(fields) => forall i | 0 <= i < |fields| :: ArraysWithin(fields[i].value, max)
    case _ => true
  }

  /** Arrays and objects are nested at most `levels` deep. */
  predicate NestedWithin(v: Value, levels: nat)
    decreases v
  {
    match v
    case Arr(items) => levels > 0 && forall i | 0 <= i < |items| :: NestedWithin(items[i], levels - 1)
    case Obj(fields) => levels > 0 && forall i | 0 <= i < |fields| :: NestedWithin(fields[i].value, levels - 1)
    case _ => true
  }

  /** No string value, and no value still to be stringified, is longer than `max`. */
  predicate StringsWithin(v: Value, max: nat)
    decreases v
  {
    match v
    case Str(s) => |s| <= max
    case Textual(text) => false
    case Arr(items) => forall i | 0 <= i < |items| :: StringsWithin(items[i], max)
    case Obj(fields) => forall i | 0 <= i < |fields| :: StringsWithin(fields[i].value, max)
    case _ => true
  }

  /** For every payload: no secret survives, arrays have at most 65 items, nesting is bounded. */
  lemma {:induction false} SanitizedIsSafe(v: Value, depth: nat)
    requires depth <= MAX_DEPTH + 1
    ensures var out := Sanitize(v, depth);
            && NoSecrets(out)
            && ArraysWithin(out, MAX_ARRAY_LEN + 1)
            && NestedWithin(out, MAX_DEPTH + 1 - depth)
    decreases v
  {
    if depth > MAX_DEPTH {
    } else {
      match v
      case Arr(items) => forall i | 0 <= i < |items| { SanitizedIsSafe(items[i], depth + 1); }
      case Obj(fields) => forall i | 0 <= i < |fields| { SanitizedIsSafe(fields[i].value, depth + 1); }
      case _ =>
    }
  }

  // ---- The parts of a payload that are looked at ----

  /**
   `textOk` holds of every text the sanitiser writes out, and `lengthOk` of the
   length of every array it copies: those at most six levels down, among the
   first 64 items of their array, and not under a secret key.
   */
  predicate Visited(v: Value, depth: nat, textOk: string -> bool, lengthOk: nat -> bool)
    decreases v
  {
    depth > MAX_DEPTH ||
    match v
    case Textual(text) => textOk(text)
    case Arr(items) =>
      lengthOk(|items|) &&
      forall i | 0 <= i < |items| && i < MAX_ARRAY_LEN :: Visited(items[i], depth + 1, textOk, lengthOk)
    case Obj(fields) =>
      forall i | 0 <= i < |fields| && !IsSecretKey(fields[i].key) ::
        Visited(fields[i].value, depth + 1, textOk, lengthOk)
    case _ => true
  }

  const ARRAY_LIMIT := 0x1_0000_0000  // a JavaScript array is shorter than this

  predicate AnyText(text: string) { true }
  predicate AnyLength(n: nat) { true }
  predicate JsLength(n: nat) { n < ARRAY_LIMIT }
  predicate ShortText(text: string) { |text| <= MAX_STRING_LEN + 1 }

  /**
   Strings come out at most 4097 long exactly when every bigint, function or
   symbol that is visited has so short a text: those are not truncated.
   */
  lemma {:induction false} StringsAreBoundedIff(v: Value, depth: nat)
    requires Visited(v, depth, AnyText, JsLength)
    ensures StringsWithin(Sanitize(v, depth), MAX_STRING_LEN + 1) <==>
            Visited(v, depth, ShortText, AnyLength)
    decreases v, 1
  {
    if depth > MAX_DEPTH {
    } else {
      match v
      case Arr(_) => ArrayStringsAreBounded(v, depth);
      case Obj(_) => ObjectStringsAreBounded(v, depth);
      case _ =>
    }
  }

  lemma {:induction false} ArrayStringsAreBounded(v: Value, depth: nat)
    requires v.Arr? && depth <= MAX_DEPTH && Visited(v, depth, AnyText, JsLength)
    ensures StringsWithin(Sanitize(v, depth), MAX_STRING_LEN + 1) <==> Visited(v, depth, ShortText, AnyLength)
    decreases v, 0
  {
    var items, out := v.items, Sanitize(v, depth).items;
    forall i | 0 <= i < |items| && i < MAX_ARRAY_LEN
      ensures out[i] == Sanitize(items[i], depth + 1)
      ensures StringsWithin(out[i], MAX_STRING_LEN + 1) <==> Visited(items[i], depth + 1, ShortText, AnyLength)
    {
      StringsAreBoundedIff(items[i], depth + 1);
    }
    if |items| > MAX_ARRAY_LEN {
      MarkerLength(|items| - MAX_ARRAY_LEN);
      assert out[MAX_ARRAY_LEN] == Marker(|items| - MAX_ARRAY_LEN);
    }
  }

  lemma {:induction false} ObjectStringsAreBounded(v: Value, depth: nat)
    requires v.Obj? && depth <= MAX_DEPTH && Visited(v, depth, AnyText, JsLength)
    ensures StringsWithin(Sanitize(v, depth), MAX_STRING_LEN + 1) <==> Visited(v, depth, ShortText, AnyLength)
    decreases v, 0
  {
    var fields, out := v.fields, Sanitize(v, depth).fields;
    forall i | 0 <= i < |fields|
      ensures StringsWithin(out[i].value, MAX_STRING_LEN + 1) <==>
              IsSecretKey(fields[i].key) || Visited(fields[i].value, depth + 1, ShortText, AnyLength)
    {
      if !IsSecretKey(fields[i].key) { StringsAreBoundedIff(fields[i].value, depth + 1); }
    }
  }

  lemma MarkerLength(n: nat)
    requires n < ARRAY_LIMIT
    ensures StringsWithin(Marker(n), MAX_STRING_LEN + 1)
  {
    assert Power10(5) == 100_000 && Power10(10) == 100_000 * Power10(5);
    DecimalLength(n, 10);
  }

  // ---- Sanitising twice ----

  predicate StableText(text: string) { Truncate(text, MAX_STRING_LEN) == text }
  predicate StableLength(n: nat) { n <= MAX_ARRAY_LEN + 1 }

  lemma {:induction false} TruncateTwice(s: string)
    ensures Truncate(Truncate(s, MAX_STRING_LEN), MAX_STRING_LEN) == Truncate(s, MAX_STRING_LEN)
  {
  }

  lemma MarkerIsOne(n: nat)
    requires n >= 1 && Marker(n) == Marker(1)
    ensures n == 1
  {
    assert Marker(n).s[12..|Marker(n).s| - 1] == Decimal(n);
    assert Marker(1).s[12..|Marker(1).s| - 1] == Decimal(1);
    if n >= 10 { DecimalIsLong(n); }
  }

  lemma {:induction false} DecimalIsLong(n: nat)
    ensures |Decimal(n)| >= if n >= 10 then 2 else 1
  {
  }

  /**
   Sanitising what has been sanitised changes nothing exactly when no visited
   array is longer than 65 and every text written out fits the string limit.
   */
  lemma {:induction false} IdempotentIff(v: Value, depth: nat)
    ensures Sanitize(Sanitize(v, depth), depth) == Sanitize(v, depth) <==> Visited(v, depth, StableText, StableLength)
    decreases v, 1
  {
    if depth > MAX_DEPTH {
    } else {
      match v
      case Str(s) => TruncateTwice(s);
      case Arr(_) => ArrayIdempotentIff(v, depth);
      case Obj(_) => ObjectIdempotentIff(v, depth);
      case _ =>
    }
  }

  /** Two lists that agree where an item is stable, and in the marker of a single dropped item. */
  lemma {:induction false} ItemsAgreeIff(v: Value, depth: nat, once: seq<Value>, twice: seq<Value>)
    requires v.Arr? && depth <= MAX_DEPTH && |once| == |twice| == Min(|v.items|, MAX_ARRAY_LEN + 1)
    requires forall i :: 0 <= i < |v.items| && i < MAX_ARRAY_LEN ==>
               (twice[i] == once[i] <==> Visited(v.items[i], depth + 1, StableText, StableLength))
    requires |v.items| > MAX_ARRAY_LEN ==>
               (twice[MAX_ARRAY_LEN] == once[MAX_ARRAY_LEN] <==> StableLength(|v.items|))
    ensures twice == once <==> Visited(v, depth, StableText, StableLength)
  {
    if Visited(v, depth, StableText, StableLength) {
      assert forall i :: 0 <= i < |once| ==> twice[i] == once[i];
    }
  }

  lemma {:induction false} ArrayIdempotentIff(v: Value, depth: nat)
    requires v.Arr? && depth <= MAX_DEPTH
    ensures Sanitize(Sanitize(v, depth), depth) == Sanitize(v, depth) <==> Visited(v, depth, StableText, StableLength)
    decreases v, 0
  {
    var items := v.items;
    ArrayMeaning(items, depth);
    var once := Sanitize(v, depth).items;
    ArrayMeaning(once, depth);
    var twice := Sanitize(Arr(once), depth).items;
    forall i | 0 <= i < |items| && i < MAX_ARRAY_LEN
      ensures twice[i] == once[i] <==> Visited(items[i], depth + 1, StableText, StableLength)
    {
      IdempotentIff(items[i], depth + 1);
    }
    if |items| > MAX_ARRAY_LEN && Marker(|items| - MAX_ARRAY_LEN) == Marker(1) {
      MarkerIsOne(|items| - MAX_ARRAY_LEN);
    }
    ItemsAgreeIff(v, depth, once, twice);
  }

  lemma {:induction false} ObjectIdempotentIff(v: Value, depth: nat)
    requires v.Obj? && depth <= MAX_DEPTH
    ensures Sanitize(Sanitize(v, depth), depth) == Sanitize(v, depth) <==> Visited(v, depth, StableText, StableLength)
    decreases v, 0
  {
    var fields, once, twice := v.fields, Sanitize(v, depth).fields, Sanitize(Sanitize(v, depth), depth).fields;
    assert |twice| == |once| == |fields|;
    forall i | 0 <= i < |fields|
      ensures twice[i] == once[i] <==>
              IsSecretKey(fields[i].key) || Visited(fields[i].value, depth + 1, StableText, StableLength)
    {
      if !IsSecretKey(fields[i].key) { IdempotentIff(fields[i].value, depth + 1); }
    }
    if Visited(v, depth, StableText, StableLength) {
      assert twice == once;
    }
  }

  // ---- The recursive procedure ----

  method SanitizeValue(value: Value, depth: nat) returns (out: Value)
    ensures out == Sanitize(value, depth)
    decreases value
  {
    if depth > MAX_DEPTH {
      return TOO_DEEP;
    }
    match value {
      case Str(s) => out := Str(Truncate(s, MAX_STRING_LEN));
      case Textual(text) => out := Str(text);
      case Arr(items) =>
        var limit := Min(|items|, MAX_ARRAY_LEN);
        var copied := [];
        for i := 0 to limit
          invariant |copied| == i
          invariant forall j :: 0 <= j < i ==> copied[j] == Sanitize(items[j], depth + 1)
        {
          var item := SanitizeValue(items[i], depth + 1);
          copied := copied + [item];
        }
        if |items| > MAX_ARRAY_LEN {
          copied := copied + [Marker(|items| - MAX_ARRAY_LEN)];
        }
        out := Arr(copied);
      case Obj(fields) =>
        var copied := [];
        for i := 0 to |fields|
          invariant |copied| == i
          invariant forall j :: 0 <= j < i ==> copied[j] == Sanitize(value, depth).fields[j]
        {
          if IsSecretKey(fields[i].key) {
            copied := copied + [Field(fields[i].key, REDACTED)];
          } else {
            var field := SanitizeValue(fields[i].value, depth + 1);
            copied := copied + [Field(fields[i].key, field)];
          }
        }
        out := Obj(copied);
      case _ => out := value;
    }
  }
}
