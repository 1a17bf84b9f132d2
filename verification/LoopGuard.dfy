/** The canonical text as it is built, and the guard that counts calls by it. */
module LoopGuards {
  import opened Basics
  import opened Order
  import opened CanonicalJson

  method KeysInOrder(m: map<string, Json>) returns (keys: seq<string>)
    ensures keys == SortedKeys(m.Keys)
  {
    var found, left := [], m.Keys;
    while left != {}
      invariant left <= m.Keys
      invariant forall k :: k in found <==> k in m.Keys - left
      decreases left
    {
      var k :| k in left;
      found := found + [k];
      left := left - {k};
    }
    SortedNamesFacts(found);
    keys := SortedNames(found);
    SortedKeysUnique(m.Keys, keys);
  }

  /** Appends the canonical text of a value, whatever the order in which an object lists its keys. */
  method Walk(v: Json, out: string) returns (out': string)
    ensures out' == out + Text(v)
    decreases v, 3
  {
    match v
    case Obj(m) => out' := WalkMembers(v, out);
    case Arr(xs) => out' := WalkItems(v, out);
    case Null => out' := out + "null";
    case Bool(b) => out' := out + if b then "true" else "false";
    case Num(t) => out' := out + t;
    case Str(s) => out' := out + Quote(s);
  }

  method WalkMember(v: Json, key: string, out: string) returns (out': string)
    requires v.Obj? && key in v.members
    ensures out' == out + MemberText(v, key)
    decreases v, 0
  {
    out' := out + Quote(key);
    out' := out' + ":";
    out' := Walk(v.members[key], out');
  }

  method WalkMembers(v: Json, out: string) returns (out': string)
    requires v.Obj?
    ensures out' == out + Text(v)
    decreases v, 2
  {
    var keys := KeysInOrder(v.members);
    out' := WriteMembers(v, keys, out + "{");
    out' := out' + "}";
    Regroup(out, "{", MembersText(v, keys), "}");
  }

  method WriteMembers(v: Json, keys: seq<string>, out: string) returns (out': string)
    requires v.Obj? && forall k :: k in keys ==> k in v.members
    ensures out' == out + MembersText(v, keys)
    decreases v, 1
  {
    out' := out;
    ghost var goal := out + MembersText(v, keys);
    var i := 0;
    while i < |keys|
      invariant 0 <= i <= |keys|
      invariant goal == out' + MembersRest(v, keys, i)
    {
      ghost var before := out';
      if i > 0 { out' := out' + ","; }
      out' := WalkMember(v, keys[i], out');
      MembersAdvance(v, keys, i, before, out');
      i := i + 1;
    }
  }

  method WalkItems(v: Json, out: string) returns (out': string)
    requires v.Arr?
    ensures out' == out + Text(v)
    decreases v, 0
  {
    out' := out + "[";
    ghost var goal := out + ("[" + ItemsText(v, 0));
    var i := 0;
    while i < |v.items|
      invariant 0 <= i <= |v.items|
      invariant goal == out' + ItemsRest(v, i)
    {
      ghost var before := out';
      if i > 0 { out' := out' + ","; }
      out' := Walk(v.items[i], out');
      ItemsAdvance(v, i, before, out');
      i := i + 1;
    }
    assert out' == goal;
    out' := out' + "]";
  }

  /** What is still to be written once `i` members, or items, have been. */
  ghost function MembersRest(v: Json, ks: seq<string>, i: nat): string
    requires v.Obj? && i <= |ks| && forall k :: k in ks ==> k in v.members
  {
    if i == |ks| then "" else (if i > 0 then "," else "") + MembersText(v, ks[i..])
  }

  ghost function ItemsRest(v: Json, i: nat): string
    requires v.Arr? && i <= |v.items|
  {
    if i == |v.items| then "" else (if i > 0 then "," else "") + ItemsText(v, i)
  }

  lemma MembersAdvance(v: Json, ks: seq<string>, i: nat, before: string, after: string)
    requires v.Obj? && i < |ks| && forall k :: k in ks ==> k in v.members
    requires after == before + (if i > 0 then "," else "") + MemberText(v, ks[i])
    ensures before + MembersRest(v, ks, i) == after + MembersRest(v, ks, i + 1)
  {
    var comma, x, rest := if i > 0 then "," else "", MemberText(v, ks[i]), MembersRest(v, ks, i + 1);
    assert ks[i..][1..] == ks[i + 1..];
    assert MembersText(v, ks[i..]) == x + rest;
    assert after == before + comma + x;
    Assoc(comma, x, rest);
    Regroup(before, comma, x, rest);
  }

  lemma ItemsAdvance(v: Json, i: nat, before: string, after: string)
    requires v.Arr? && i < |v.items|
    requires after == before + (if i > 0 then "," else "") + Text(v.items[i])
    ensures before + ItemsRest(v, i) == after + ItemsRest(v, i + 1)
  {
    var comma, x, rest := if i > 0 then "," else "", Text(v.items[i]), ItemsRest(v, i + 1);
    assert ItemsText(v, i) == x + rest;
    Assoc(comma, x, rest);
    Regroup(before, comma, x, rest);
  }

  method Canonical(v: Json) returns (text: string)
    ensures text == Text(v)
  {
    text := Walk(v, "");
  }

  // ------------------------------------------------------------------ keys never collide

  /** Reading a text character by character: inside a string or not, after a backslash or not. */
  datatype Place = Place(inside: bool, escaped: bool)

  const OUTSIDE := Place(false, false)

  function Read(q: Place, c: char): Place {
    if q.escaped then Place(q.inside, false)
    else if c == '\\' then Place(q.inside, true)
    else if c == '"' then Place(!q.inside, false)
    else q
  }

  function ReadAll(q: Place, s: string): Place
    decreases s
  {
    if s == "" then q else ReadAll(Read(q, s[0]), s[1..])
  }

  function Flip(q: Place): Place {
    Place(!q.inside, q.escaped)
  }

  lemma {:induction false} ReadConcat(q: Place, s: string, t: string)
    ensures ReadAll(q, s + t) == ReadAll(ReadAll(q, s), t)
    decreases s
  {
    if s == "" {
      assert s + t == t;
    } else {
      assert (s + t)[1..] == s[1..] + t;
      ReadConcat(Read(q, s[0]), s[1..], t);
    }
  }

  /** Starting inside instead of outside exchanges the two everywhere. */
  lemma {:induction false} ReadFlipped(q: Place, s: string)
    ensures ReadAll(Flip(q), s) == Flip(ReadAll(q, s))
    decreases s
  {
    if s != "" { ReadFlipped(Read(q, s[0]), s[1..]); }
  }

  const INSIDE := Place(true, false)

  /** Reading `s` leads from `q` to `r`, and every bar met on the way is inside a string. */
  ghost predicate Leads(q: Place, s: string, r: Place) {
    ReadAll(q, s) == r && forall i :: 0 <= i < |s| && s[i] == '|' ==> ReadAll(q, s[..i]) == INSIDE
  }

  lemma LeadsOn(q: Place, s: string, r: Place, t: string, z: Place)
    requires Leads(q, s, r) && Leads(r, t, z)
    ensures Leads(q, s + t, z)
  {
    ReadConcat(q, s, t);
    forall i | 0 <= i < |s + t| && (s + t)[i] == '|' ensures ReadAll(q, (s + t)[..i]) == INSIDE {
      if i < |s| {
        assert (s + t)[..i] == s[..i];
      } else {
        assert (s + t)[..i] == s + t[..i - |s|];
        ReadConcat(q, s, t[..i - |s|]);
      }
    }
  }

  predicate IsPlain(c: char) {
    c != '"' && c != '\\'
  }

  /** Plain characters change nothing; outside strings they must not be bars. */
  lemma {:induction false} PlainLeads(q: Place, s: string)
    requires !q.escaped && forall i :: 0 <= i < |s| ==> IsPlain(s[i]) && (q == INSIDE || s[i] != '|')
    ensures Leads(q, s, q)
    decreases s
  {
    if s != "" {
      PlainLeads(q, s[1..]);
      forall i | 0 <= i < |s| && s[i] == '|' ensures ReadAll(q, s[..i]) == INSIDE {
        if i > 0 {
          assert s[..i][1..] == s[1..][..i - 1];
          assert s[1..][i - 1] == '|';
        }
      }
    }
  }

  lemma EscapeLeads(c: char)
    ensures Leads(INSIDE, Escape(c), INSIDE)
  {
    var e := Escape(c);
    if e[0] == '\\' {
      var two, rest := e[..2], e[2..];
      assert ReadAll(INSIDE, two) == INSIDE by {
        assert two[1..][1..] == "";
        assert ReadAll(Place(true, true), two[1..]) == INSIDE;
      }
      assert Leads(INSIDE, two, INSIDE);
      PlainLeads(INSIDE, rest);
      LeadsOn(INSIDE, two, INSIDE, rest, INSIDE);
      assert e == two + rest;
    } else {
      PlainLeads(INSIDE, e);
    }
  }

  lemma {:induction false} EscapeAllLeads(s: string)
    ensures Leads(INSIDE, EscapeAll(s), INSIDE)
  {
    if s != "" {
      EscapeLeads(s[0]);
      EscapeAllLeads(s[1..]);
      LeadsOn(INSIDE, Escape(s[0]), INSIDE, EscapeAll(s[1..]), INSIDE);
    }
  }

  lemma QuoteLeads(s: string)
    ensures Leads(OUTSIDE, Quote(s), OUTSIDE)
  {
    EscapeAllLeads(s);
    assert "\""[1..] == "";
    assert Leads(OUTSIDE, "\"", INSIDE) && Leads(INSIDE, "\"", OUTSIDE);
    LeadsOn(INSIDE, EscapeAll(s), INSIDE, "\"", OUTSIDE);
    LeadsOn(OUTSIDE, "\"", INSIDE, EscapeAll(s) + "\"", OUTSIDE);
  }

  /** Canonical text begins and ends outside strings and has no bar out there. */
  lemma {:induction false} TextLeads(v: Json)
    requires WellFormed(v)
    ensures Leads(OUTSIDE, Text(v), OUTSIDE)
    decreases v, 3, 0
  {
    match v {
      case Null | Bool(_) | Num(_) => PlainLeads(OUTSIDE, Text(v));
      case Str(s) => QuoteLeads(s);
      case Arr(_) =>
        ItemsLead(v, 0);
        Bracketed("[", ItemsText(v, 0), "]");
      case Obj(m) =>
        MembersLead(v, SortedKeys(m.Keys));
        Bracketed("{", MembersText(v, SortedKeys(m.Keys)), "}");
    }
  }

  lemma Bracketed(open: string, s: string, close: string)
    requires Leads(OUTSIDE, s, OUTSIDE)
    requires forall i :: 0 <= i < |open| ==> IsPlain(open[i]) && open[i] != '|'
    requires forall i :: 0 <= i < |close| ==> IsPlain(close[i]) && close[i] != '|'
    ensures Leads(OUTSIDE, open + (s + close), OUTSIDE)
  {
    PlainLeads(OUTSIDE, open);
    PlainLeads(OUTSIDE, close);
    LeadsOn(OUTSIDE, s, OUTSIDE, close, OUTSIDE);
    LeadsOn(OUTSIDE, open, OUTSIDE, s + close, OUTSIDE);
  }

  lemma Separated(s: string, mark: string, t: string)
    requires Leads(OUTSIDE, s, OUTSIDE) && Leads(OUTSIDE, t, OUTSIDE)
    requires forall i :: 0 <= i < |mark| ==> IsPlain(mark[i]) && mark[i] != '|'
    ensures Leads(OUTSIDE, s + (mark + t), OUTSIDE)
  {
    PlainLeads(OUTSIDE, mark);
    LeadsOn(OUTSIDE, mark, OUTSIDE, t, OUTSIDE);
    LeadsOn(OUTSIDE, s, OUTSIDE, mark + t, OUTSIDE);
  }

  lemma {:induction false} ItemsLead(v: Json, i: nat)
    requires v.Arr? && WellFormed(v) && i <= |v.items|
    ensures Leads(OUTSIDE, ItemsText(v, i), OUTSIDE)
    decreases v, 2, |v.items| - i
  {
    if i < |v.items| {
      TextLeads(v.items[i]);
      if i + 1 < |v.items| {
        ItemsLead(v, i + 1);
        Separated(Text(v.items[i]), ",", ItemsText(v, i + 1));
      }
    }
  }

  lemma {:induction false} MembersLead(v: Json, ks: seq<string>)
    requires KeysOf(v, ks)
    ensures Leads(OUTSIDE, MembersText(v, ks), OUTSIDE)
    decreases v, 2, |ks|
  {
    if ks != [] {
      TextLeads(v.members[ks[0]]);
      QuoteLeads(ks[0]);
      Separated(Quote(ks[0]), ":", Text(v.members[ks[0]]));
      if |ks| > 1 {
        MembersLead(v, ks[1..]);
        Separated(MemberText(v, ks[0]), ",", MembersText(v, ks[1..]));
      }
    }
  }

  ghost function Key(tool: string, arguments: Json): string {
    tool + ("|" + Text(arguments))
  }

  /** No canonical text is another one after a bar: the bar would be inside a string, which would then be read
      inside out to its end. */
  lemma NoTextAfterBar(v: Json, w: Json, x: string)
    requires WellFormed(v) && WellFormed(w)
    ensures Text(w) != x + ("|" + Text(v))
  {
    if Text(w) == x + ("|" + Text(v)) {
      TextLeads(v);
      TextLeads(w);
      assert Text(w)[|x|] == '|' && Text(w)[..|x|] == x;
      assert ReadAll(OUTSIDE, x) == INSIDE;
      ReadConcat(OUTSIDE, x, "|" + Text(v));
      assert ("|" + Text(v))[1..] == Text(v);
      assert ReadAll(INSIDE, "|" + Text(v)) == ReadAll(INSIDE, Text(v));
      ReadFlipped(OUTSIDE, Text(v));
    }
  }

  lemma KeyTail(tool: string, v: Json, n: nat)
    requires n <= |tool| + 1
    ensures Key(tool, v)[n..] == if n <= |tool| then tool[n..] + ("|" + Text(v)) else Text(v)
  {
  }

  lemma KeyShorter(tool: string, v: Json, tool': string, w: Json)
    requires WellFormed(v) && WellFormed(w) && Key(tool, v) == Key(tool', w)
    ensures |tool| <= |tool'|
  {
    if |tool| > |tool'| {
      KeyTail(tool, v, |tool'| + 1);
      KeyTail(tool', w, |tool'| + 1);
      NoTextAfterBar(v, w, tool[|tool'| + 1..]);
    }
  }

  /** Two calls have the same key exactly when tool and arguments are the same, whatever bars the tool name has. */
  lemma KeyIsInjective(tool: string, v: Json, tool': string, w: Json)
    requires WellFormed(v) && WellFormed(w)
    ensures Key(tool, v) == Key(tool', w) <==> tool == tool' && v == w
  {
    if Key(tool, v) == Key(tool', w) {
      KeyShorter(tool, v, tool', w);
      KeyShorter(tool', w, tool, v);
      assert Key(tool, v)[..|tool|] == tool && Key(tool', w)[..|tool'|] == tool';
      assert Key(tool, v)[|tool| + 1..] == Text(v) && Key(tool', w)[|tool'| + 1..] == Text(w);
      CanonicalIsInjective(v, w);
    }
  }

  // ------------------------------------------------------------------ the guard

  datatype ToolCall = ToolCall(tool: string, arguments: Json)

  /** How many calls of the history are this one. */
  ghost function Count(calls: seq<ToolCall>, c: ToolCall): nat {
    if calls == [] then 0 else
    Count(calls[..|calls| - 1], c) + if calls[|calls| - 1] == c then 1 else 0
  }

  const LOOP_GUARD_REPEATS: u32 := 3

  ghost function KeyOf(c: ToolCall): string {
    Key(c.tool, c.arguments)
  }

  /** The counters are those of the history, modulo 2^32. */
  ghost predicate Tracks(seen: map<string, u32>, calls: seq<ToolCall>) {
    && (forall c :: c in calls ==> WellFormed(c.arguments) && KeyOf(c) in seen)
    && (forall c: ToolCall {:trigger KeyOf(c)} :: WellFormed(c.arguments) && KeyOf(c) in seen ==>
          seen[KeyOf(c)] == Shown(Count(calls, c)))
  }

  /** The calls of the history that are this one. */
  ghost function Same(calls: seq<ToolCall>, c: ToolCall): set<nat> {
    set i: nat | i < |calls| && calls[i] == c
  }

  lemma {:induction false} CountIs(calls: seq<ToolCall>, c: ToolCall)
    ensures |Same(calls, c)| == Count(calls, c)
    ensures Shown(Count(calls, c)) == Count(calls, c) % 0x1_0000_0000
  {
    if calls != [] {
      var n := |calls| - 1;
      CountIs(calls[..n], c);
      assert Same(calls, c) == Same(calls[..n], c) + if calls[n] == c then {n} else {};
    }
  }

  /** What a 32-bit counter shows after `k` increments. */
  function Shown(k: nat): u32 {
    if k < U32 then k else k % U32
  }

  function Bump(n: u32): u32 {
    if n + 1 == U32 then 0 else n + 1
  }

  lemma BumpShown(k: nat)
    ensures Bump(Shown(k)) == Shown(k + 1)
  {
  }

  lemma {:induction false} CountAtMost(calls: seq<ToolCall>, c: ToolCall)
    ensures Count(calls, c) <= |calls|
    ensures Count(calls, c) > 0 ==> c in calls
  {
    if calls != [] { CountAtMost(calls[..|calls| - 1], c); }
  }

  lemma SeenIs(seen: map<string, u32>, calls: seq<ToolCall>, c: ToolCall)
    requires Tracks(seen, calls) && WellFormed(c.arguments)
    ensures (if KeyOf(c) in seen then seen[KeyOf(c)] else 0) == Shown(Count(calls, c))
  {
    CountAtMost(calls, c);
  }

  lemma CountNext(calls: seq<ToolCall>, c: ToolCall)
    ensures Count(calls + [c], c) == Count(calls, c) + 1
  {
    assert (calls + [c])[..|calls|] == calls;
  }

  /** One more call moves its own counter and no other. */
  lemma TracksStep(seen: map<string, u32>, calls: seq<ToolCall>, c: ToolCall, n: u32)
    requires Tracks(seen, calls) && WellFormed(c.arguments) && n == Shown(Count(calls + [c], c))
    ensures Tracks(seen[KeyOf(c) := n], calls + [c])
  {
    var seen' := seen[KeyOf(c) := n];
    forall d: ToolCall | WellFormed(d.arguments) && KeyOf(d) in seen'
      ensures seen'[KeyOf(d)] == Shown(Count(calls + [c], d))
    {
      KeyIsInjective(d.tool, d.arguments, c.tool, c.arguments);
      assert (calls + [c])[..|calls|] == calls;
      if d != c { assert KeyOf(d) != KeyOf(c); }
    }
  }

  /** The counter kept for the key of a call, one higher, shows the calls like it, this one included. */
  lemma Recorded(seen: map<string, u32>, calls: seq<ToolCall>, c: ToolCall, key: string)
    requires Tracks(seen, calls) && WellFormed(c.arguments) && key == KeyOf(c)
    ensures Bump(if key in seen then seen[key] else 0) == Shown(Count(calls + [c], c))
    ensures Count(calls + [c], c) <= |calls| + 1
  {
    SeenIs(seen, calls, c);
    CountNext(calls, c);
    CountAtMost(calls, c);
    BumpShown(Count(calls, c));
  }

  class LoopGuard {
    var seen: map<string, u32>
    ghost var calls: seq<ToolCall>

    ghost predicate Valid()
      reads this
    {
      Tracks(seen, calls)
    }

    constructor ()
      ensures Valid() && calls == []
    {
      seen := map[];
      calls := [];
    }

    /** Records one call; true once the same tool has been called with the same arguments, up to key order, three
        times so far, the counter being 32 bits wide. */
    method Repeated(tool: string, arguments: Json) returns (r: bool)
      requires Valid() && WellFormed(arguments)
      modifies this
      ensures Valid() && calls == old(calls) + [ToolCall(tool, arguments)]
      ensures r <==> |Same(calls, ToolCall(tool, arguments))| % 0x1_0000_0000 >= 3
      ensures |calls| < 0x1_0000_0000 ==> (r <==> |Same(calls, ToolCall(tool, arguments))| >= 3)
    {
      ghost var c := ToolCall(tool, arguments);
      var text := Canonical(arguments);
      var key := tool + "|" + text;
      Recorded(seen, calls, c, key);
      var n := Bump(if key in seen then seen[key] else 0);
      TracksStep(seen, calls, c, n);
      seen := seen[key := n];
      calls := calls + [c];
      CountIs(calls, c);
      r := n >= LOOP_GUARD_REPEATS;
    }
  }
}
