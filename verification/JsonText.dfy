/** The canonical text as a JSON text: what it looks like, and how RFC 8259 has its strings read. */
module JsonText {
  import opened Basics
  import opened Order
  import opened CanonicalJson

  function HexValue(c: char): Option<nat> {
    if '0' <= c <= '9' then Some(c as int - '0' as int)
    else if 'a' <= c <= 'f' then Some(c as int - 'a' as int + 10)
    else if 'A' <= c <= 'F' then Some(c as int - 'A' as int + 10)
    else None
  }

  /** The character of `\uXXXX`, surrogates left out. */
  function FromHex(t: string): Option<char>
    requires |t| == 4
  {
    match (HexValue(t[0]), HexValue(t[1]), HexValue(t[2]), HexValue(t[3]))
    case (Some(a), Some(b), Some(c), Some(d)) =>
      var n := 0x1000 * a + 0x100 * b + 0x10 * c + d;
      if n < 0xD800 then Some(n as char) else None
    case _ => None
  }

  /** The character that a backslash and `c` stand for. */
  function ShortEscape(c: char): Option<char> {
    match c
    case '"' => Some('"')
    case '\\' => Some('\\')
    case '/' => Some('/')
    case 'b' => Some(8 as char)
    case 'f' => Some(12 as char)
    case 'n' => Some('\n')
    case 'r' => Some('\r')
    case 't' => Some('\t')
    case _ => None
  }

  /** The string that stands between the quotes of a JSON string, as section 7 of RFC 8259 reads it. */
  function Decoded(t: string): Option<string> {
    if t == "" then Some("")
    else if t[0] == '"' || t[0] < ' ' then None
    else if t[0] != '\\' then Then(t[0], Decoded(t[1..]))
    else if |t| >= 6 && t[1] == 'u' then
      (match FromHex(t[2..6]) case Some(c) => Then(c, Decoded(t[6..])) case None => None)
    else if |t| >= 2 then
      (match ShortEscape(t[1]) case Some(c) => Then(c, Decoded(t[2..])) case None => None)
    else None
  }

  function Then(c: char, rest: Option<string>): Option<string> {
    match rest case Some(s) => Some([c] + s) case None => None
  }

  lemma EscapeDecodes(c: char, rest: string)
    ensures Decoded(Escape(c) + rest) == Then(c, Decoded(rest))
  {
    var t := Escape(c) + rest;
    if |Escape(c)| == 6 {
      assert t[2..6] == Escape(c)[2..6] && t[6..] == rest;
      HexDecodes(c);
    } else if |Escape(c)| == 2 {
      assert t[2..] == rest;
    } else {
      assert t[1..] == rest;
    }
  }

  lemma HexDecodes(c: char)
    requires c < ' '
    ensures FromHex(['0', '0', Hex(c as int / 16), Hex(c as int % 16)]) == Some(c)
  {
    HexDigit(c as int / 16);
    HexDigit(c as int % 16);
  }

  lemma HexDigit(n: nat)
    requires n < 16
    ensures HexValue(Hex(n)) == Some(n)
  {
  }

  /** A reader of JSON gets the string back from its escaped form. */
  lemma {:induction false} StringsDecode(s: string)
    ensures Decoded(EscapeAll(s)) == Some(s)
  {
    if s != "" {
      StringsDecode(s[1..]);
      EscapeDecodes(s[0], EscapeAll(s[1..]));
      assert [s[0]] + s[1..] == s;
    }
  }

  // ------------------------------------------------------------------ values

  /** The parts with a comma between neighbours. */
  function Commas(parts: seq<string>): string {
    if |parts| == 0 then "" else if |parts| == 1 then parts[0] else parts[0] + "," + Commas(parts[1..])
  }

  lemma {:induction false} ItemsAre(v: Json, i: nat)
    requires v.Arr? && i <= |v.items|
    ensures ItemsText(v, i) == Commas(seq(|v.items| - i, k requires 0 <= k < |v.items| - i => Text(v.items[i + k])))
    decreases |v.items| - i
  {
    var parts := seq(|v.items| - i, k requires 0 <= k < |v.items| - i => Text(v.items[i + k]));
    if i < |v.items| {
      ItemsAre(v, i + 1);
      assert parts[1..] == seq(|v.items| - (i + 1), k requires 0 <= k < |v.items| - (i + 1) => Text(v.items[i + 1 + k]));
    }
  }

  /** The keys of the object, each once, in ascending order. */
  ghost predicate KeysInOrder(v: Json, ks: seq<string>)
    requires v.Obj?
  {
    (forall k :: k in ks <==> k in v.members) && forall i, j :: 0 <= i < j < |ks| ==> StringLess(ks[i], ks[j])
  }

  ghost function Member(v: Json, k: string): string
    requires v.Obj? && k in v.members
  {
    "\"" + EscapeAll(k) + "\":" + Text(v.members[k])
  }

  lemma MemberIs(v: Json, k: string)
    requires v.Obj? && k in v.members
    ensures MemberText(v, k) == Member(v, k)
  {
  }

  ghost function Members(v: Json, ks: seq<string>): seq<string>
    requires v.Obj? && forall k :: k in ks ==> k in v.members
  {
    seq(|ks|, i requires 0 <= i < |ks| => Member(v, ks[i]))
  }

  lemma {:induction false} MembersAre(v: Json, ks: seq<string>)
    requires v.Obj? && forall k :: k in ks ==> k in v.members
    ensures MembersText(v, ks) == Commas(Members(v, ks))
  {
    var parts := Members(v, ks);
    if ks != [] {
      MemberIs(v, ks[0]);
      MembersAre(v, ks[1..]);
      assert parts[1..] == Members(v, ks[1..]);
      Assoc(Member(v, ks[0]), ",", MembersText(v, ks[1..]));
    }
  }

  /** The text of every kind of value: literals, the text of a number, quoted strings, arrays and objects with commas
      between their parts, and the keys of an object in ascending order, each once. */
  lemma {:induction false} TextIs(v: Json)
    ensures v.Null? ==> Text(v) == "null"
    ensures v.Bool? ==> Text(v) == if v.b then "true" else "false"
    ensures v.Num? ==> Text(v) == v.text
    ensures v.Str? ==> Text(v) == "\"" + EscapeAll(v.s) + "\""
    ensures v.Arr? ==> Text(v) == "[" + Commas(seq(|v.items|, i requires 0 <= i < |v.items| => Text(v.items[i]))) + "]"
    ensures v.Obj? ==> exists ks :: KeysInOrder(v, ks) && Text(v) == "{" + Commas(Members(v, ks)) + "}"
  {
    if v.Arr? {
      ItemsAre(v, 0);
      assert seq(|v.items|, i requires 0 <= i < |v.items| => Text(v.items[i]))
          == seq(|v.items| - 0, k requires 0 <= k < |v.items| - 0 => Text(v.items[0 + k]));
    } else if v.Obj? {
      var ks := SortedKeys(v.members.Keys);
      SortedKeysAscend(v.members.Keys);
      MembersAre(v, ks);
      assert KeysInOrder(v, ks);
    }
  }
}
