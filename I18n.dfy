/** The translation provider of app/components/I18nProvider.tsx: the dotted-path lookup
    `get`, the translation function `t` and the current locale with its toggle. */
module I18n {
  import opened Collections
  import opened JsonValues

  // ---------------------------------------------------------------------------
  // `path.split(".")`
  // ---------------------------------------------------------------------------

  /** `String.prototype.split` with a one-character separator: always at least one
      segment, and no segment contains the separator. */
  function Split(s: string, sep: char): (r: seq<string>)
    ensures |r| >= 1
    ensures forall i :: 0 <= i < |r| ==> sep !in r[i]
    decreases |s|
  {
    if s == [] then [""]
    else
      var rest := Split(s[1..], sep);
      if s[0] == sep then [""] + rest
      else [[s[0]] + rest[0]] + rest[1..]
  }

  /** `Array.prototype.join` with a one-character separator. */
  function Join(parts: seq<string>, sep: char): string
    requires |parts| >= 1
    decreases |parts|
  {
    if |parts| == 1 then parts[0] else parts[0] + [sep] + Join(parts[1..], sep)
  }

  /** Joining the segments of a string gives the string back. */
  lemma {:induction false} JoinSplit(s: string, sep: char)
    ensures Join(Split(s, sep), sep) == s
    decreases |s|
  {
    if s != [] {
      var rest := Split(s[1..], sep);
      JoinSplit(s[1..], sep);
      if s[0] == sep {
        assert ([""] + rest)[1..] == rest;
        assert s == [sep] + s[1..];
      } else {
        var r := [[s[0]] + rest[0]] + rest[1..];
        if |rest| == 1 {
          assert s == [s[0]] + s[1..];
        } else {
          assert r[1..] == rest[1..];
          assert Join(rest, sep) == rest[0] + [sep] + Join(rest[1..], sep);
          assert s == [s[0]] + s[1..];
        }
      }
    }
  }

  /** Splitting a string that begins with a separator-free part `a`. */
  lemma {:induction false} SplitAfterPlainPrefix(a: string, t: string, sep: char)
    requires sep !in a
    ensures Split(a + t, sep) == [a + Split(t, sep)[0]] + Split(t, sep)[1..]
    decreases |a|
  {
    var st := Split(t, sep);
    if a == [] {
      assert a + t == t;
      assert a + st[0] == st[0];
      assert st == [st[0]] + st[1..];
    } else {
      assert (a + t)[0] == a[0];
      assert (a + t)[1..] == a[1..] + t;
      SplitAfterPlainPrefix(a[1..], t, sep);
      assert [a[0]] + (a[1..] + st[0]) == a + st[0];
    }
  }

  /** Splitting the segments joined back together gives the segments back, provided
      no segment contains the separator. */
  lemma {:induction false} SplitJoin(parts: seq<string>, sep: char)
    requires |parts| >= 1
    requires forall i :: 0 <= i < |parts| ==> sep !in parts[i]
    ensures Split(Join(parts, sep), sep) == parts
    decreases |parts|
  {
    if |parts| == 1 {
      SplitAfterPlainPrefix(parts[0], "", sep);
      assert parts[0] + "" == parts[0];
    } else {
      var tail := Join(parts[1..], sep);
      SplitJoin(parts[1..], sep);
      assert parts[0] + [sep] + tail == parts[0] + ([sep] + tail);
      SplitAfterPlainPrefix(parts[0], [sep] + tail, sep);
      assert ([sep] + tail)[0] == sep;
      assert ([sep] + tail)[1..] == tail;
      assert Split([sep] + tail, sep) == [""] + parts[1..];
      assert parts[0] + "" == parts[0];
      assert parts == [parts[0]] + parts[1..];
    }
  }

  // ---------------------------------------------------------------------------
  // `get(obj, path)`
  // ---------------------------------------------------------------------------

  /** JavaScript truthiness; `None` stands for `undefined`. */
  predicate Truthy(v: Option<Json>)
  {
    match v
    case None => false
    case Some(JNull) => false
    case Some(JBool(b)) => b
    case Some(JNum(n)) => n != 0
    case Some(JStr(s)) => s != ""
    case Some(JArr(_)) => true
    case Some(JObj(_)) => true
  }

  predicate IsDigit(c: char) { '0' <= c <= '9' }

  function DecimalValue(s: string): nat
    requires forall i :: 0 <= i < |s| ==> IsDigit(s[i])
    decreases |s|
  {
    if s == [] then 0
    else
      assert IsDigit(s[|s| - 1]);
      10 * DecimalValue(s[..|s| - 1]) + (s[|s| - 1] as int - '0' as int)
  }

  /** The array index a property name denotes: a decimal numeral without leading zeros. */
  function ArrayIndex(part: string): Option<nat>
  {
    if part != "" && (forall i | 0 <= i < |part| :: IsDigit(part[i])) && (part[0] != '0' || |part| == 1)
    then Some(DecimalValue(part))
    else None
  }

  /** The property access `v[part]` on a JSON value: the own members of an object, the
      elements and `length` of an array or a string; anything else is `undefined`. */
  function Member(v: Json, part: string): (r: Option<Json>)
    ensures r.Some? ==> v.JObj? || v.JArr? || v.JStr?
    ensures v.JObj? ==> (r.Some? <==> part in v.fields)
    ensures v.JObj? && r.Some? ==> r.value == v.fields[part]
    ensures (v.JArr? || v.JStr?) && part == "length" ==> r.Some? && r.value.JNum?
    ensures (v.JArr? || v.JStr?) && part != "length" && r.Some? ==> ArrayIndex(part).Some?
    ensures v.JArr? && part != "length" && r.Some? ==> r.value in v.items
    ensures v.JStr? && part != "length" && r.Some? ==> r.value.JStr? && |r.value.s| == 1
  {
    match v
    case JObj(fields) => if part in fields then Some(fields[part]) else None
    case JArr(items) =>
      if part == "length" then Some(JNum(|items|))
      else (match ArrayIndex(part)
            case Some(i) => if i < |items| then Some(items[i]) else None
            case None => None)
    case JStr(s) =>
      if part == "length" then Some(JNum(|s|))
      else (match ArrayIndex(part)
            case Some(i) => if i < |s| then Some(JStr([s[i]])) else None
            case None => None)
    case _ => None
  }

  /** One step of the `reduce` in `get`: `acc && acc[part] != null ? acc[part] : undefined`. */
  function Step(acc: Option<Json>, part: string): (r: Option<Json>)
    ensures r != Some(JNull)
    ensures !Truthy(acc) ==> r == None
    ensures r.Some? ==> Truthy(acc) && r == Member(acc.value, part)
    ensures Truthy(acc) && Member(acc.value, part).Some? && Member(acc.value, part) != Some(JNull) ==>
              r.Some?
  {
    if Truthy(acc) && Member(acc.value, part).Some? && Member(acc.value, part).value != JNull
    then Member(acc.value, part)
    else None
  }

  /** The `reduce` over the path segments. Once the accumulator is `undefined` it stays
      so, and a non-empty walk never ends on `null`. */
  function Walk(acc: Option<Json>, parts: seq<string>): (r: Option<Json>)
    ensures acc == None ==> r == None
    ensures parts != [] ==> r != Some(JNull)
    decreases |parts|
  {
    if parts == [] then acc else Walk(Step(acc, parts[0]), parts[1..])
  }

  /** `get(obj, path)`; `None` is `undefined`. It never yields `null`. */
  function Get(obj: Json, path: string): (r: Option<Json>)
    ensures r != Some(JNull)
  {
    Walk(Some(obj), Split(path, '.'))
  }

  /** Walking a path in two pieces is walking it at once. */
  lemma {:induction false} WalkAppend(acc: Option<Json>, p: seq<string>, q: seq<string>)
    ensures Walk(acc, p + q) == Walk(Walk(acc, p), q)
    decreases |p|
  {
    if p != [] {
      assert (p + q)[0] == p[0];
      assert (p + q)[1..] == p[1..] + q;
      WalkAppend(Step(acc, p[0]), p[1..], q);
    } else {
      assert p + q == q;
    }
  }

  /** Once a prefix of the path has reached `undefined`, no later segment revives it. */
  lemma MissingSegmentIsFinal(acc: Option<Json>, parts: seq<string>, k: nat)
    requires k <= |parts| && Walk(acc, parts[..k]) == None
    ensures Walk(acc, parts) == None
  {
    assert parts == parts[..k] + parts[k..];
    WalkAppend(acc, parts[..k], parts[k..]);
  }

  /** The nested member lookup `obj[a][b][c]` through JSON objects, failing as soon as a
      member is missing or `null`. */
  function NestedLookup(v: Json, keys: seq<string>): Option<Json>
    decreases |keys|
  {
    if keys == [] then Some(v)
    else if v.JObj? && keys[0] in v.fields && v.fields[keys[0]] != JNull
    then NestedLookup(v.fields[keys[0]], keys[1..])
    else None
  }

  /** Where the nested lookup succeeds, the walk finds the same value. */
  lemma {:induction false} WalkNestedLookup(v: Json, keys: seq<string>)
    requires NestedLookup(v, keys).Some?
    ensures Walk(Some(v), keys) == NestedLookup(v, keys)
    decreases |keys|
  {
    if keys != [] {
      assert Step(Some(v), keys[0]) == Some(v.fields[keys[0]]);
      WalkNestedLookup(v.fields[keys[0]], keys[1..]);
    }
  }

  /** `get(obj, "a.b.c")` is `obj[a][b][c]` whenever every member on the way exists and is
      not `null`. */
  lemma GetIsNestedLookup(obj: Json, keys: seq<string>)
    requires |keys| >= 1
    requires forall i :: 0 <= i < |keys| ==> '.' !in keys[i]
    requires NestedLookup(obj, keys).Some?
    ensures Get(obj, Join(keys, '.')) == NestedLookup(obj, keys)
  {
    SplitJoin(keys, '.');
    WalkNestedLookup(obj, keys);
  }

  /** A key without dots is one step of the walk. */
  lemma GetOneSegment(v: Json, key: string)
    requires '.' !in key
    ensures Get(v, key) == Step(Some(v), key)
  {
    SplitJoin([key], '.');
    assert Join([key], '.') == key;
    assert [key][1..] == [];
    assert Walk(Some(v), [key]) == Walk(Step(Some(v), key), []);
  }

  /** A key without dots is looked up directly; a `null` or missing member gives `undefined`. */
  lemma GetSingleKey(fields: map<string, Json>, key: string)
    requires '.' !in key
    ensures Get(JObj(fields), key)
         == if key in fields && fields[key] != JNull then Some(fields[key]) else None
  {
    GetOneSegment(JObj(fields), key);
  }

  /** The decimal numeral of `n`, as `String(n)` writes it. */
  function Numeral(n: nat): (r: string)
    ensures r != [] && (forall i :: 0 <= i < |r| ==> IsDigit(r[i]) && r[i] != '.')
    decreases n
  {
    if n < 10 then [('0' as int + n) as char]
    else Numeral(n / 10) + [('0' as int + n % 10) as char]
  }

  /** A numeral names its own number, has no leading zero, and is thus an array index. */
  lemma {:induction false} NumeralIsIndex(n: nat)
    ensures ArrayIndex(Numeral(n)) == Some(n)
    ensures n > 0 ==> Numeral(n)[0] != '0'
    decreases n
  {
    var r := Numeral(n);
    if n < 10 {
      assert r[..|r| - 1] == [];
      assert DecimalValue(r) == n;
    } else {
      NumeralIsIndex(n / 10);
      assert r[..|r| - 1] == Numeral(n / 10);
      assert r[0] == Numeral(n / 10)[0];
      assert DecimalValue(r) == 10 * (n / 10) + n % 10;
    }
  }

  /** `get(array, String(i))` is element `i` of the array, unless that element is `null`. */
  lemma ArrayElementLookup(items: seq<Json>, i: nat)
    requires i < |items|
    ensures items[i] != JNull ==> Get(JArr(items), Numeral(i)) == Some(items[i])
    ensures items[i] == JNull ==> Get(JArr(items), Numeral(i)) == None
  {
    NumeralIsIndex(i);
    assert Member(JArr(items), Numeral(i)) == Some(items[i]);
    GetOneSegment(JArr(items), Numeral(i));
  }

  /** `get(string, String(i))` is the `i`-th character of the string. */
  lemma StringCharLookup(s: string, i: nat)
    requires i < |s|
    ensures Get(JStr(s), Numeral(i)) == Some(JStr([s[i]]))
  {
    NumeralIsIndex(i);
    assert Member(JStr(s), Numeral(i)) == Some(JStr([s[i]]));
    GetOneSegment(JStr(s), Numeral(i));
  }

  /** `length` is the size of an array or a string, except that the empty string is falsy
      and so has no members. */
  lemma LengthLookup(items: seq<Json>, s: string)
    ensures Get(JArr(items), "length") == Some(JNum(|items|))
    ensures s != "" ==> Get(JStr(s), "length") == Some(JNum(|s|))
    ensures s == "" ==> Get(JStr(s), "length") == None
  {
    GetOneSegment(JArr(items), "length");
    GetOneSegment(JStr(s), "length");
  }

  // ---------------------------------------------------------------------------
  // `t(key, options)`
  // ---------------------------------------------------------------------------

  /** The translation function. By default it yields the string stored under `key`, or
      `key` itself when there is none; with `returnObjects` it yields whatever truthy
      value is stored, or `{}`. */
  function T(messages: Json, key: string, returnObjects: bool := false): (r: Json)
    ensures !returnObjects ==> r.JStr?
    ensures !returnObjects ==> r == JStr(key) || Get(messages, key) == Some(r)
    ensures !returnObjects && Get(messages, key).Some? && Get(messages, key).value.JStr? ==>
              Some(r) == Get(messages, key)
    ensures returnObjects ==> Truthy(Some(r))
    ensures returnObjects ==> r == JObj(map[]) || Get(messages, key) == Some(r)
    ensures returnObjects && Truthy(Get(messages, key)) ==> Some(r) == Get(messages, key)
  {
    var value := Get(messages, key);
    if returnObjects then
      if Truthy(value) then value.value else JObj(map[])
    else
      match value
      case Some(JStr(s)) => JStr(s)
      case _ => JStr(key)
  }

  // ---------------------------------------------------------------------------
  // The current locale
  // ---------------------------------------------------------------------------

  /** The locale `toggleLocale` switches to. */
  function Toggled(locale: string): (r: string)
    ensures r == "en" || r == "es"
    ensures r != locale || (locale != "en" && locale != "es")
  {
    if locale == "en" then "es" else "en"
  }

  lemma ToggleTwice(locale: string)
    requires locale == "en" || locale == "es"
    ensures Toggled(Toggled(locale)) == locale
  {
  }

  /** The initial state: "en" on the server, otherwise the stored locale unless it is
      missing or empty. The stored value is not checked to be a known locale. */
  function InitialLocale(hasWindow: bool, stored: Option<string>): (r: string)
    ensures r != ""
    ensures !hasWindow || stored.None? || stored.value == "" ==> r == "en"
    ensures hasWindow && stored.Some? && stored.value != "" ==> r == stored.value
  {
    if !hasWindow then "en"
    else match stored
      case Some(s) => if s != "" then s else "en"
      case None => "en"
  }

  /** The message catalogue for a locale: Spanish for "es", English for anything else,
      including a stored locale that is not a known one. */
  function MessagesFor(locale: string, en: Json, es: Json): (r: Json)
    ensures locale == "es" ==> r == es
    ensures locale != "es" ==> r == en
  {
    if locale == "es" then es else en
  }

  class LocaleState {
    var locale: string

    constructor (hasWindow: bool, stored: Option<string>)
      ensures locale == InitialLocale(hasWindow, stored)
    {
      locale := InitialLocale(hasWindow, stored);
    }

    method SetLocale(l: string)
      requires l == "en" || l == "es"
      modifies this
      ensures locale == l
    {
      locale := l;
    }

    method ToggleLocale()
      modifies this
      ensures locale == Toggled(old(locale))
      ensures old(locale) == "en" ==> locale == "es"
      ensures old(locale) != "en" ==> locale == "en"
    {
      locale := if locale == "en" then "es" else "en";
    }

    /** `t` bound to the catalogue of the current locale. */
    method Translate(en: Json, es: Json, key: string, returnObjects: bool) returns (r: Json)
      ensures locale == "es" ==> r == T(es, key, returnObjects)
      ensures locale != "es" ==> r == T(en, key, returnObjects)
    {
      r := T(MessagesFor(locale, en, es), key, returnObjects);
    }
  }
}
