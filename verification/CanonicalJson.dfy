/** The canonical text of a JSON value: object keys sorted at every depth. */
module CanonicalJson {
  import opened Order

  /** A number is known by the text it prints as. */
  datatype Json =
    | Null
    | Bool(b: bool)
    | Num(text: string)
    | Str(s: string)
    | Arr(items: seq<Json>)
    | Obj(members: map<string, Json>)

  predicate IsNumberChar(c: char) {
    '0' <= c <= '9' || c == '-' || c == '+' || c == '.' || c == 'e' || c == 'E'
  }

  predicate IsNumberText(t: string) {
    && t != "" && ('0' <= t[0] <= '9' || t[0] == '-')
    && forall i :: 0 <= i < |t| ==> IsNumberChar(t[i])
  }

  ghost predicate WellFormed(v: Json) {
    match v
    case Num(t) => IsNumberText(t)
    case Arr(xs) => forall i :: 0 <= i < |xs| ==> WellFormed(xs[i])
    case Obj(m) => forall k :: k in m ==> WellFormed(m[k])
    case _ => true
  }

  function Hex(n: nat): char
    requires n < 16
  {
    "0123456789abcdef"[n]
  }

  /** One character inside a string, as section 7 of RFC 8259 has it escaped. */
  function Escape(c: char): (e: string)
    ensures e != "" && e[0] != '"'
  {
    match c
    case '"' => "\\\""
    case '\\' => "\\\\"
    case '\n' => "\\n"
    case '\r' => "\\r"
    case '\t' => "\\t"
    case _ =>
      if c == 8 as char then "\\b"
      else if c == 12 as char then "\\f"
      else if c < ' ' then "\\u00" + [Hex(c as int / 16), Hex(c as int % 16)]
      else [c]
  }

  function EscapeAll(s: string): string {
    if s == "" then "" else Escape(s[0]) + EscapeAll(s[1..])
  }

  function Quote(s: string): string {
    "\"" + (EscapeAll(s) + "\"")
  }

  /** The elements of a set in ascending order. */
  ghost function SortedKeys(ks: set<string>): (s: seq<string>)
    ensures forall k :: k in s <==> k in ks
    decreases |ks|
  {
    if ks == {} then [] else
    var k :| k in ks;
    Insert(StringLess, k, SortedKeys(ks - {k}))
  }

  ghost function Text(v: Json): string
    decreases v, 3, 0
  {
    match v
    case Null => "null"
    case Bool(b) => if b then "true" else "false"
    case Num(t) => t
    case Str(s) => Quote(s)
    case Arr(xs) => "[" + (ItemsText(v, 0) + "]")
    case Obj(m) => "{" + (MembersText(v, SortedKeys(m.Keys)) + "}")
  }

  ghost function ItemsText(v: Json, i: nat): string
    requires v.Arr? && i <= |v.items|
    decreases v, 1, |v.items| - i
  {
    if i == |v.items| then ""
    else if i + 1 == |v.items| then Text(v.items[i])
    else Text(v.items[i]) + ("," + ItemsText(v, i + 1))
  }

  ghost function MemberText(v: Json, k: string): string
    requires v.Obj? && k in v.members
    decreases v, 1, 0
  {
    Quote(k) + (":" + Text(v.members[k]))
  }

  ghost function MembersText(v: Json, ks: seq<string>): string
    requires v.Obj? && forall k :: k in ks ==> k in v.members
    decreases v, 2, |ks|
  {
    if ks == [] then ""
    else if |ks| == 1 then MemberText(v, ks[0])
    else MemberText(v, ks[0]) + ("," + MembersText(v, ks[1..]))
  }

  lemma {:induction false} SortedKeysAscend(ks: set<string>)
    ensures Ascending(StringLess, SortedKeys(ks))
    decreases |ks|
  {
    if ks != {} {
      var k :| k in ks && SortedKeys(ks) == Insert(StringLess, k, SortedKeys(ks - {k}));
      StringLessTotal();
      SortedKeysAscend(ks - {k});
      InsertAscending(StringLess, k, SortedKeys(ks - {k}));
    }
  }

  /** Keys sorted in any way are sorted that way. */
  lemma SortedKeysUnique(ks: set<string>, s: seq<string>)
    requires Ascending(StringLess, s) && forall k :: k in s <==> k in ks
    ensures s == SortedKeys(ks)
  {
    SortedKeysAscend(ks);
    StringLessTotal();
    AscendingUnique(StringLess, s, SortedKeys(ks));
  }

  // ------------------------------------------------------------------ strings are read back

  lemma EscapeIsPrefixFree(c: char, d: char, s: string, t: string)
    requires Escape(c) + s == Escape(d) + t
    ensures c == d && s == t
  {
    var e, f := Escape(c), Escape(d);
    assert (e + s)[0] == e[0] && (f + t)[0] == f[0];
    assert e[0] == f[0];
    if e[0] == '\\' {
      assert (e + s)[1] == e[1] && (f + t)[1] == f[1];
      if e[1] == 'u' {
        assert (e + s)[4] == e[4] && (f + t)[4] == f[4];
        assert (e + s)[5] == e[5] && (f + t)[5] == f[5];
        HexInjective(c as int / 16, d as int / 16);
        HexInjective(c as int % 16, d as int % 16);
      }
    }
    assert c == d;
    assert (e + s)[|e|..] == s && (e + t)[|e|..] == t;
  }

  lemma HexInjective(m: nat, n: nat)
    requires m < 16 && n < 16 && Hex(m) == Hex(n)
    ensures m == n
  {
  }

  /** A quote at the start of what is left means that the string is over. */
  lemma QuoteEnds(a: string, s: string)
    ensures EscapeAll(a) + ("\"" + s) != "" && ((EscapeAll(a) + ("\"" + s))[0] == '"' <==> a == "")
  {
    if a != "" { assert (EscapeAll(a) + ("\"" + s))[0] == Escape(a[0])[0]; }
  }

  lemma EscapeFirst(a: string, q: string)
    requires a != ""
    ensures EscapeAll(a) + q == Escape(a[0]) + (EscapeAll(a[1..]) + q)
  {
  }

  lemma {:induction false} StringsReadBack(a: string, b: string, s: string, t: string)
    requires EscapeAll(a) + ("\"" + s) == EscapeAll(b) + ("\"" + t)
    ensures a == b && s == t
    decreases a
  {
    QuoteEnds(a, s);
    QuoteEnds(b, t);
    if a == "" {
      assert ("\"" + s)[1..] == s && ("\"" + t)[1..] == t;
      assert EscapeAll(a) + ("\"" + s) == "\"" + s && EscapeAll(b) + ("\"" + t) == "\"" + t;
    } else {
      EscapeFirst(a, "\"" + s);
      EscapeFirst(b, "\"" + t);
      EscapeIsPrefixFree(a[0], b[0], EscapeAll(a[1..]) + ("\"" + s), EscapeAll(b[1..]) + ("\"" + t));
      StringsReadBack(a[1..], b[1..], s, t);
      assert a == [a[0]] + a[1..] && b == [b[0]] + b[1..];
    }
  }

  lemma InsideQuote(a: string, s: string)
    ensures (Quote(a) + s)[1..] == EscapeAll(a) + ("\"" + s)
  {
  }

  lemma QuotesReadBack(a: string, b: string, s: string, t: string)
    requires Quote(a) + s == Quote(b) + t
    ensures a == b && s == t
  {
    InsideQuote(a, s);
    InsideQuote(b, t);
    StringsReadBack(a, b, s, t);
  }

  // ------------------------------------------------------------------ values are read back

  /** What can follow a value: nothing, or a character that belongs to no number. */
  predicate Ends(s: string) {
    s != "" ==> s[0] == ',' || s[0] == ']' || s[0] == '}'
  }

  lemma NumberEnds(a: string, s: string)
    requires (forall i :: 0 <= i < |a| ==> IsNumberChar(a[i])) && Ends(s)
    ensures a + s != "" && IsNumberChar((a + s)[0]) <==> a != ""
  {
    if a == "" { assert a + s == s; } else { assert (a + s)[0] == a[0]; }
  }

  lemma {:induction false} NumbersReadBack(a: string, b: string, s: string, t: string)
    requires (forall i :: 0 <= i < |a| ==> IsNumberChar(a[i])) && (forall i :: 0 <= i < |b| ==> IsNumberChar(b[i]))
    requires a + s == b + t && Ends(s) && Ends(t)
    ensures a == b && s == t
  {
    NumberEnds(a, s);
    NumberEnds(b, t);
    if a == "" {
      assert a + s == s && b + t == t;
    } else {
      assert (a + s)[0] == a[0] && (b + t)[0] == b[0];
      assert (a + s)[1..] == a[1..] + s && (b + t)[1..] == b[1..] + t;
      NumbersReadBack(a[1..], b[1..], s, t);
      assert a == [a[0]] + a[1..] && b == [b[0]] + b[1..];
    }
  }

  /** The first character tells which kind of value follows, and is never a closing one. */
  predicate StartsAs(v: Json, c: char) {
    match v
    case Null => c == 'n'
    case Bool(b) => c == if b then 't' else 'f'
    case Num(_) => '0' <= c <= '9' || c == '-'
    case Str(_) => c == '"'
    case Arr(_) => c == '['
    case Obj(_) => c == '{'
  }

  lemma TextStarts(v: Json)
    requires WellFormed(v)
    ensures Text(v) != "" && StartsAs(v, Text(v)[0])
  {
  }

  lemma SameKind(v: Json, w: Json, s: string, t: string)
    requires WellFormed(v) && WellFormed(w) && Text(v) + s == Text(w) + t
    ensures (v.Null? <==> w.Null?) && (v.Bool? <==> w.Bool?) && (v.Num? <==> w.Num?) && (v.Str? <==> w.Str?)
    ensures (v.Arr? <==> w.Arr?) && (v.Obj? <==> w.Obj?) && (v.Bool? ==> v == w)
  {
    TextStarts(v);
    TextStarts(w);
    assert (Text(v) + s)[0] == Text(v)[0] && (Text(w) + t)[0] == Text(w)[0];
  }

  /** Unique reading: two values followed by something that ends a value, when written alike, are the same value
      followed by the same thing. */
  lemma {:induction false} ValuesReadBack(v: Json, w: Json, s: string, t: string)
    requires WellFormed(v) && WellFormed(w) && Ends(s) && Ends(t)
    requires Text(v) + s == Text(w) + t
    ensures v == w && s == t
    decreases v, 3, 0
  {
    SameKind(v, w, s, t);
    match v {
      case Null | Bool(_) =>
        assert (Text(v) + s)[|Text(v)|..] == s && (Text(w) + t)[|Text(w)|..] == t;
      case Num(a) => NumbersReadBack(a, w.text, s, t);
      case Str(a) => QuotesReadBack(a, w.s, s, t);
      case Arr(_) => ArraysReadBack(v, w, s, t);
      case Obj(_) => ObjectsReadBack(v, w, s, t);
    }
  }

  lemma {:induction false} ArraysReadBack(v: Json, w: Json, s: string, t: string)
    requires v.Arr? && w.Arr? && WellFormed(v) && WellFormed(w) && Text(v) + s == Text(w) + t
    ensures v == w && s == t
    decreases v, 2, 2 * |v.items| + 1
  {
    assert (Text(v) + s)[1..] == ItemsText(v, 0) + ("]" + s);
    assert (Text(w) + t)[1..] == ItemsText(w, 0) + ("]" + t);
    ItemsReadBack(v, w, 0, s, t);
    assert v.items == v.items[0..] && w.items == w.items[0..];
  }

  lemma {:induction false} ObjectsReadBack(v: Json, w: Json, s: string, t: string)
    requires v.Obj? && w.Obj? && WellFormed(v) && WellFormed(w) && Text(v) + s == Text(w) + t
    ensures v == w && s == t
    decreases v, 2, 2 * |SortedKeys(v.members.Keys)| + 1
  {
    var ks, ls := SortedKeys(v.members.Keys), SortedKeys(w.members.Keys);
    ObjectInside(v, ks, s);
    ObjectInside(w, ls, t);
    MembersReadBack(v, w, ks, ls, s, t);
    MapsEqual(v.members, w.members, ks);
  }

  lemma ObjectInside(v: Json, ks: seq<string>, s: string)
    requires v.Obj? && ks == SortedKeys(v.members.Keys)
    ensures (Text(v) + s)[1..] == MembersText(v, ks) + ("}" + s)
  {
  }

  lemma MapsEqual(m: map<string, Json>, n: map<string, Json>, ks: seq<string>)
    requires ks == SortedKeys(m.Keys) == SortedKeys(n.Keys)
    requires forall k :: k in ks ==> m[k] == n[k]
    ensures m == n
  {
    assert forall k :: k in m.Keys <==> k in n.Keys;
  }

  /** Item `i` and the rest of an array, up to its bracket. */
  lemma {:induction false} ItemsReadBack(v: Json, w: Json, i: nat, s: string, t: string)
    requires v.Arr? && w.Arr? && WellFormed(v) && WellFormed(w) && i <= |v.items| && i <= |w.items|
    requires ItemsText(v, i) + ("]" + s) == ItemsText(w, i) + ("]" + t)
    ensures v.items[i..] == w.items[i..] && s == t
    decreases v, 2, 2 * (|v.items| - i)
  {
    ItemsEnd(v, i, s);
    ItemsEnd(w, i, t);
    if i == |v.items| {
      assert ("]" + s)[1..] == s && ("]" + t)[1..] == t;
      assert "" + ("]" + s) == "]" + s && "" + ("]" + t) == "]" + t;
    } else {
      var s', t' := ItemsTail(v, i, s), ItemsTail(w, i, t);
      ItemsSplit(v, i, s);
      ItemsSplit(w, i, t);
      ValuesReadBack(v.items[i], w.items[i], s', t');
      TailsReadBack(v, w, i, s, t);
      assert v.items[i..] == [v.items[i]] + v.items[i + 1..] && w.items[i..] == [w.items[i]] + w.items[i + 1..];
    }
  }

  /** What follows item `i`: its comma and the other items, or the bracket. */
  ghost function ItemsTail(v: Json, i: nat, s: string): (r: string)
    requires v.Arr? && i < |v.items|
    ensures Ends(r) && r != "" && (r[0] == ']' <==> i + 1 == |v.items|)
  {
    if i + 1 == |v.items| then "]" + s else "," + (ItemsText(v, i + 1) + ("]" + s))
  }

  lemma ItemsSplit(v: Json, i: nat, s: string)
    requires v.Arr? && i < |v.items|
    ensures ItemsText(v, i) + ("]" + s) == Text(v.items[i]) + ItemsTail(v, i, s)
  {
  }

  lemma ItemsEnd(v: Json, i: nat, s: string)
    requires v.Arr? && WellFormed(v) && i <= |v.items|
    ensures ItemsText(v, i) + ("]" + s) != ""
    ensures (ItemsText(v, i) + ("]" + s))[0] == ']' <==> i == |v.items|
  {
    if i < |v.items| {
      ItemsSplit(v, i, s);
      TextStarts(v.items[i]);
      assert (Text(v.items[i]) + ItemsTail(v, i, s))[0] == Text(v.items[i])[0];
    }
  }

  lemma {:induction false} TailsReadBack(v: Json, w: Json, i: nat, s: string, t: string)
    requires v.Arr? && w.Arr? && WellFormed(v) && WellFormed(w) && i < |v.items| && i < |w.items|
    requires ItemsTail(v, i, s) == ItemsTail(w, i, t)
    ensures v.items[i + 1..] == w.items[i + 1..] && s == t
    decreases v, 2, 2 * (|v.items| - i) - 1
  {
    if i + 1 == |v.items| {
      assert ("]" + s)[1..] == s && ("]" + t)[1..] == t;
    } else {
      assert ("," + (ItemsText(v, i + 1) + ("]" + s)))[1..] == ItemsText(v, i + 1) + ("]" + s);
      assert ("," + (ItemsText(w, i + 1) + ("]" + t)))[1..] == ItemsText(w, i + 1) + ("]" + t);
      ItemsReadBack(v, w, i + 1, s, t);
    }
  }

  ghost predicate KeysOf(v: Json, ks: seq<string>) {
    v.Obj? && WellFormed(v) && forall k :: k in ks ==> k in v.members
  }

  /** What follows the first of the members `ks`. */
  ghost function MembersTail(v: Json, ks: seq<string>, s: string): (r: string)
    requires KeysOf(v, ks) && ks != []
    ensures Ends(r) && r != "" && (r[0] == '}' <==> |ks| == 1)
  {
    if |ks| == 1 then "}" + s else "," + (MembersText(v, ks[1..]) + ("}" + s))
  }

  lemma MembersSplit(v: Json, ks: seq<string>, s: string)
    requires KeysOf(v, ks) && ks != []
    ensures MembersText(v, ks) + ("}" + s) == Quote(ks[0]) + (":" + (Text(v.members[ks[0]]) + MembersTail(v, ks, s)))
  {
    var key, text := Quote(ks[0]), Text(v.members[ks[0]]);
    assert MemberText(v, ks[0]) == key + (":" + text);
    if |ks| == 1 {
      Grouped(key, ":", text, "}" + s);
    } else {
      Grouped(key, ":", text, "," + (MembersText(v, ks[1..]) + ("}" + s)));
      Grouped(key + (":" + text), ",", MembersText(v, ks[1..]), "}" + s);
    }
  }

  lemma Grouped(a: string, b: string, c: string, d: string)
    ensures (a + (b + c)) + d == a + (b + (c + d))
  {
  }

  lemma MembersEnd(v: Json, ks: seq<string>, s: string)
    requires KeysOf(v, ks)
    ensures MembersText(v, ks) + ("}" + s) != ""
    ensures (MembersText(v, ks) + ("}" + s))[0] == '}' <==> ks == []
  {
    if ks != [] {
      MembersSplit(v, ks, s);
      assert (Quote(ks[0]) + (":" + (Text(v.members[ks[0]]) + MembersTail(v, ks, s))))[0] == '"';
    }
  }

  /** The members of an object, up to its brace. */
  lemma {:induction false} MembersReadBack(v: Json, w: Json, ks: seq<string>, ls: seq<string>, s: string, t: string)
    requires KeysOf(v, ks) && KeysOf(w, ls)
    requires MembersText(v, ks) + ("}" + s) == MembersText(w, ls) + ("}" + t)
    ensures ks == ls && s == t && forall k :: k in ks ==> v.members[k] == w.members[k]
    decreases v, 2, 2 * |ks|
  {
    MembersEnd(v, ks, s);
    MembersEnd(w, ls, t);
    if ks == [] {
      assert "" + ("}" + s) == "}" + s && "" + ("}" + t) == "}" + t;
      assert ("}" + s)[1..] == s && ("}" + t)[1..] == t;
    } else {
      var k, l := ks[0], ls[0];
      var s', t' := MembersTail(v, ks, s), MembersTail(w, ls, t);
      MembersSplit(v, ks, s);
      MembersSplit(w, ls, t);
      QuotesReadBack(k, l, ":" + (Text(v.members[k]) + s'), ":" + (Text(w.members[l]) + t'));
      assert (":" + (Text(v.members[k]) + s'))[1..] == Text(v.members[k]) + s';
      assert (":" + (Text(w.members[l]) + t'))[1..] == Text(w.members[l]) + t';
      ValuesReadBack(v.members[k], w.members[l], s', t');
      MembersTailsReadBack(v, w, ks, ls, s, t);
      assert ks == [k] + ks[1..] && ls == [l] + ls[1..];
    }
  }

  lemma {:induction false} MembersTailsReadBack(v: Json, w: Json, ks: seq<string>, ls: seq<string>, s: string, t: string)
    requires KeysOf(v, ks) && KeysOf(w, ls) && ks != [] && ls != []
    requires MembersTail(v, ks, s) == MembersTail(w, ls, t)
    ensures ks[1..] == ls[1..] && s == t && forall k :: k in ks[1..] ==> v.members[k] == w.members[k]
    decreases v, 2, 2 * |ks| - 1
  {
    if |ks| == 1 {
      assert ("}" + s)[1..] == s && ("}" + t)[1..] == t;
    } else {
      assert ("," + (MembersText(v, ks[1..]) + ("}" + s)))[1..] == MembersText(v, ks[1..]) + ("}" + s);
      assert ("," + (MembersText(w, ls[1..]) + ("}" + t)))[1..] == MembersText(w, ls[1..]) + ("}" + t);
      MembersReadBack(v, w, ks[1..], ls[1..], s, t);
    }
  }

  /** Two values have the same canonical text exactly when they are equal, objects being maps. */
  lemma CanonicalIsInjective(v: Json, w: Json)
    requires WellFormed(v) && WellFormed(w)
    ensures Text(v) == Text(w) <==> v == w
  {
    if Text(v) == Text(w) {
      assert Text(v) + "" == Text(v) && Text(w) + "" == Text(w);
      ValuesReadBack(v, w, "", "");
    }
  }
}
