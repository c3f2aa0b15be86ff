/**
 What patterns mean, written out: each special byte, an escape, a class, a range and a negated
 class, by what they accept, with the bytes as numbers.
 */
module GlobMeanings {
  import opened Basics
  import opened Glob

  /** The subjects a pattern accepts. */
  ghost predicate Fits(pattern: seq<byte>, subject: seq<byte>)
  {
    Accepts(Tokens(pattern), subject)
  }

  lemma TokensSplit(pattern: seq<byte>)
    requires pattern != []
    ensures var (token, width) := Head(pattern);
            Tokens(pattern)[0] == token && Tokens(pattern)[1..] == Tokens(pattern[width..])
            && |Tokens(pattern)| >= 1
  {
    hide Head;
  }

  /** A token of one byte takes it, and the rest is up to the rest of the pattern. */
  lemma OneTakes(pattern: seq<byte>, subject: seq<byte>)
    requires pattern != [] && !Head(pattern).0.Star?
    ensures var (token, width) := Head(pattern);
            Fits(pattern, subject)
            <==> subject != [] && Takes(token, subject[0]) && Fits(pattern[width..], subject[1..])
  {
    hide Head, Takes, Tokens;
    TokensSplit(pattern);
  }

  /** `?` takes any one byte. */
  lemma QuestionTakesAny(rest: seq<byte>, subject: seq<byte>)
    ensures Fits([63] + rest, subject) <==> subject != [] && Fits(rest, subject[1..])
  {
    hide Fits;
    assert ([63] + rest)[1..] == rest;
    OneTakes([63] + rest, subject);
  }

  /** `*` takes any run of bytes, none included. */
  lemma StarTakesAnyRun(rest: seq<byte>, subject: seq<byte>)
    ensures Fits([42] + rest, subject) <==> exists k :: 0 <= k <= |subject| && Fits(rest, subject[k..])
  {
    hide Tokens;
    var pattern := [42] + rest;
    assert pattern[1..] == rest;
    TokensSplit(pattern);
    if k :| 0 <= k <= |subject| && Accepts(Tokens(rest), subject[k..]) {
      assert Fits(rest, subject[k..]);
    }
    if k :| 0 <= k <= |subject| && Fits(rest, subject[k..]) {
      assert Accepts(Tokens(rest), subject[k..]);
    }
  }

  /** A byte behind a backslash is itself, special or not. */
  lemma EscapeIsLiteral(b: byte, rest: seq<byte>, subject: seq<byte>)
    ensures Fits([92, b] + rest, subject) <==> subject != [] && subject[0] == b && Fits(rest, subject[1..])
  {
    hide Fits;
    assert ([92, b] + rest)[2..] == rest;
    OneTakes([92, b] + rest, subject);
  }

  lemma NothingFits(subject: seq<byte>)
    ensures Fits([], subject) <==> subject == []
  {
  }

  /** A pattern with no special byte accepts exactly itself. */
  lemma {:induction false} PlainIsItself(pattern: seq<byte>, subject: seq<byte>)
    requires forall i :: 0 <= i < |pattern| ==> pattern[i] !in {42, 63, 91, 92}
    ensures Fits(pattern, subject) <==> subject == pattern
    decreases |pattern|
  {
    hide Fits;
    if pattern == [] {
      NothingFits(subject);
    } else {
      OneTakes(pattern, subject);
      if subject != [] {
        PlainIsItself(pattern[1..], subject[1..]);
        assert subject == [subject[0]] + subject[1..];
        assert pattern == [pattern[0]] + pattern[1..];
      }
    }
  }

  // ---------- Classes ----------

  /** Bytes that stand for themselves between the brackets. */
  predicate Listed(members: seq<byte>)
  {
    forall i :: 0 <= i < |members| ==> members[i] !in {93, 92, 45}
  }

  /** Members and the bracket that closes them, read from anywhere in a pattern. */
  lemma {:induction false} ItemsAre(before: seq<byte>, members: seq<byte>, rest: seq<byte>)
    requires Listed(members)
    ensures var (items, end) := Items(before + members + [93] + rest, |before|);
            && end == |before| + |members| + 1
            && forall b :: AnyHas(items, b) <==> b in members
    decreases |members|
  {
    var pattern := before + members + [93] + rest;
    if members == [] {
      assert pattern[|before|] == 93;
    } else {
      var c := members[0];
      ItemsAre(before + [c], members[1..], rest);
      assert before + [c] + members[1..] == before + members;
      assert pattern[|before|] == c && pattern[|before| + 1] != 45;
      var (later, end) := Items(pattern, |before| + 1);
      assert Items(pattern, |before|) == ([Single(c)] + later, end);
      SingleAdds(c, later);
    }
  }

  lemma SingleAdds(c: byte, items: seq<Item>)
    ensures forall b :: AnyHas([Single(c)] + items, b) <==> b == c || AnyHas(items, b)
  {
    var all := [Single(c)] + items;
    forall b ensures AnyHas(all, b) <==> b == c || AnyHas(items, b) {
      if b == c {
        assert ItemHas(all[0], b);
      }
      if i :| 0 <= i < |items| && ItemHas(items[i], b) {
        assert ItemHas(all[i + 1], b);
      }
    }
  }

  /** A class takes its members and no other byte. */
  lemma ClassTakesMembers(members: seq<byte>, rest: seq<byte>, subject: seq<byte>)
    requires Listed(members) && (members != [] ==> members[0] != 94)
    ensures Fits([91] + members + [93] + rest, subject)
            <==> subject != [] && subject[0] in members && Fits(rest, subject[1..])
  {
    hide Fits, AnyHas, Items;
    var pattern := [91] + members + [93] + rest;
    ItemsAre([91], members, rest);
    assert pattern[|members| + 2..] == rest;
    OneTakes(pattern, subject);
  }

  /** A negated class takes every byte but its members. */
  lemma NegatedTakesTheOthers(members: seq<byte>, rest: seq<byte>, subject: seq<byte>)
    requires Listed(members)
    ensures Fits([91, 94] + members + [93] + rest, subject)
            <==> subject != [] && subject[0] !in members && Fits(rest, subject[1..])
  {
    hide Fits, AnyHas, Items;
    var pattern := [91, 94] + members + [93] + rest;
    ItemsAre([91, 94], members, rest);
    assert pattern[|members| + 3..] == rest;
    OneTakes(pattern, subject);
  }

  /** A range takes what lies between its ends, given in either order. */
  lemma RangeTakesBetween(a: byte, z: byte, rest: seq<byte>, subject: seq<byte>)
    requires a !in {92, 93, 94}
    ensures Fits([91, a, 45, z, 93] + rest, subject)
            <==> && subject != [] && (a <= subject[0] <= z || z <= subject[0] <= a)
                 && Fits(rest, subject[1..])
  {
    hide Fits;
    var pattern := [91, a, 45, z, 93] + rest;
    assert pattern[4] == 93;
    assert Items(pattern, 4) == ([], 5);
    var items := [Range(a, z)];
    assert Items(pattern, 1) == (items + [], 5) && items + [] == items;
    assert pattern[5..] == rest;
    OneTakes(pattern, subject);
    if subject != [] {
      var b := subject[0];
      assert AnyHas(items, b) <==> ItemHas(items[0], b);
    }
  }

  /** Whatever is between the brackets, closed or not, exactly one of the class and its negation takes
      a byte, and both leave the same rest of the pattern. */
  lemma NegationIsComplement(body: seq<byte>, b: byte, subject: seq<byte>)
    requires body != [] ==> body[0] != 94
    ensures var plain, negated := Fits([91] + body, [b] + subject), Fits([91, 94] + body, [b] + subject);
            && !(plain && negated)
            && (plain || negated <==> Fits(body[Items(body, 0).1..], subject))
  {
    hide Fits, AnyHas, Items;
    var p, q, s := [91] + body, [91, 94] + body, [b] + subject;
    ItemsShift([91], body, 0);
    ItemsShift([91, 94], body, 0);
    var end := Items(body, 0).1;
    assert p[1 + end..] == body[end..] && q[2 + end..] == body[end..];
    assert s[1..] == subject;
    OneTakes(p, s);
    OneTakes(q, s);
  }

  lemma {:induction false} ItemsShift(before: seq<byte>, body: seq<byte>, i: nat)
    requires i <= |body|
    ensures var (items, end) := Items(body, i);
            Items(before + body, |before| + i) == (items, |before| + end)
    decreases |body| - i
  {
    var all := before + body;
    if i < |body| {
      assert all[|before| + i] == body[i];
      assert i + 1 < |body| ==> all[|before| + i + 1] == body[i + 1];
      assert i + 2 < |body| ==> all[|before| + i + 2] == body[i + 2];
      ItemsShift(before, body, i + 1);
      if i + 1 < |body| {
        ItemsShift(before, body, i + 2);
      }
      if i + 2 < |body| {
        ItemsShift(before, body, i + 3);
      }
    }
  }
}
