/**
 Glob matching over bytes: the iterative matcher with one remembered star, proved to answer
 exactly what a declarative reading of the pattern says, in at most quadratically many steps.
 */
module Glob {
  import opened Basics

  const STAR: byte := 42
  const DASH: byte := 45
  const QUESTION: byte := 63
  const OPEN: byte := 91
  const BACKSLASH: byte := 92
  const CLOSE: byte := 93
  const CARET: byte := 94

  // ---------- What a pattern means ----------

  /** One member of a class; a range takes its ends in either order. */
  datatype Item = Single(member: byte) | Range(one: byte, other: byte)

  datatype Token = Star | Any | Literal(b: byte) | Class(negated: bool, items: seq<Item>)

  predicate ItemHas(item: Item, b: byte)
  {
    match item
    case Single(member) => b == member
    case Range(one, other) => one <= b <= other || other <= b <= one
  }

  predicate AnyHas(items: seq<Item>, b: byte)
  {
    exists i :: 0 <= i < |items| && ItemHas(items[i], b)
  }

  /** Whether a token that takes one byte takes this one. */
  predicate Takes(token: Token, b: byte)
  {
    match token
    case Star => false
    case Any => true
    case Literal(l) => b == l
    case Class(negated, items) => AnyHas(items, b) != negated
  }

  /** A star takes any run; every other token takes one byte; nothing may be left over. */
  ghost predicate Accepts(tokens: seq<Token>, subject: seq<byte>)
    decreases |tokens|
  {
    if tokens == [] then subject == []
    else if tokens[0].Star? then exists k :: 0 <= k <= |subject| && Accepts(tokens[1..], subject[k..])
    else subject != [] && Takes(tokens[0], subject[0]) && Accepts(tokens[1..], subject[1..])
  }

  /** The members of a class from offset `i`, and where it ends: past the first `]`, or at the
      end of the pattern if it is never closed. */
  function Items(pattern: seq<byte>, i: nat): (r: (seq<Item>, nat))
    requires i <= |pattern|
    ensures i <= r.1 <= |pattern|
    decreases |pattern| - i
  {
    if i == |pattern| then ([], i)
    else if pattern[i] == CLOSE then ([], i + 1)
    else if pattern[i] == BACKSLASH && i + 1 < |pattern| then
      var (rest, end) := Items(pattern, i + 2);
      ([Single(pattern[i + 1])] + rest, end)
    else if i + 2 < |pattern| && pattern[i + 1] == DASH then
      var (rest, end) := Items(pattern, i + 3);
      ([Range(pattern[i], pattern[i + 2])] + rest, end)
    else
      var (rest, end) := Items(pattern, i + 1);
      ([Single(pattern[i])] + rest, end)
  }

  /** The token at the head of a pattern, and its width in bytes. */
  function Head(pattern: seq<byte>): (r: (Token, nat))
    requires pattern != []
    ensures 1 <= r.1 <= |pattern|
    ensures r.0.Star? <==> pattern[0] == STAR
    ensures r.0.Star? ==> r.1 == 1
  {
    if pattern[0] == STAR then (Star, 1)
    else if pattern[0] == QUESTION then (Any, 1)
    else if pattern[0] == OPEN then
      var negated := |pattern| > 1 && pattern[1] == CARET;
      var (items, end) := Items(pattern, if negated then 2 else 1);
      (Class(negated, items), end)
    else if pattern[0] == BACKSLASH && |pattern| > 1 then (Literal(pattern[1]), 2)
    else (Literal(pattern[0]), 1)
  }

  function Tokens(pattern: seq<byte>): seq<Token>
    decreases |pattern|
  {
    if pattern == [] then [] else [Head(pattern).0] + Tokens(pattern[Head(pattern).1..])
  }

  /** The rest of the subject matches the rest of the pattern. */
  ghost predicate Rest(pattern: seq<byte>, subject: seq<byte>, p: nat, s: nat)
    requires p <= |pattern| && s <= |subject|
  {
    Accepts(Tokens(pattern[p..]), subject[s..])
  }

  /** The subject from `j` on matches what follows the star at `at`. */
  ghost predicate Resumes(pattern: seq<byte>, subject: seq<byte>, at: nat, j: nat)
    requires at < |pattern| && j <= |subject|
  {
    Rest(pattern, subject, at + 1, j)
  }

  // ---------- How the rest unfolds ----------

  lemma RestAtStar(pattern: seq<byte>, subject: seq<byte>, p: nat, s: nat)
    requires p < |pattern| && s <= |subject| && pattern[p] == STAR
    ensures Rest(pattern, subject, p, s) <==> exists j :: s <= j <= |subject| && Resumes(pattern, subject, p, j)
  {
    var tokens := Tokens(pattern[p..]);
    assert pattern[p..][1..] == pattern[p + 1..];
    assert tokens[0].Star? && tokens[1..] == Tokens(pattern[p + 1..]);
    if Rest(pattern, subject, p, s) {
      var k :| 0 <= k <= |subject[s..]| && Accepts(tokens[1..], subject[s..][k..]);
      assert subject[s..][k..] == subject[s + k..];
      assert Resumes(pattern, subject, p, s + k);
    }
    if j :| s <= j <= |subject| && Resumes(pattern, subject, p, j) {
      assert subject[s..][j - s..] == subject[j..];
    }
  }

  lemma RestAtOne(pattern: seq<byte>, subject: seq<byte>, p: nat, s: nat)
    requires p < |pattern| && s <= |subject| && pattern[p] != STAR
    ensures var (token, width) := Head(pattern[p..]);
            Rest(pattern, subject, p, s)
            <==> s < |subject| && Takes(token, subject[s]) && Rest(pattern, subject, p + width, s + 1)
  {
    var (token, width) := Head(pattern[p..]);
    assert pattern[p..][width..] == pattern[p + width..];
    assert Tokens(pattern[p..]) == [token] + Tokens(pattern[p + width..]);
    assert Tokens(pattern[p..])[1..] == Tokens(pattern[p + width..]);
    if s < |subject| {
      assert subject[s..][1..] == subject[s + 1..];
    }
  }

  lemma RestAtEnd(pattern: seq<byte>, subject: seq<byte>, s: nat)
    requires s <= |subject|
    ensures Rest(pattern, subject, |pattern|, s) <==> s == |subject|
  {
    assert pattern[|pattern|..] == [];
  }

  /** A spent subject matches exactly a rest that is all stars. */
  lemma {:induction false} RestOfSpent(pattern: seq<byte>, subject: seq<byte>, p: nat)
    requires p <= |pattern|
    ensures Rest(pattern, subject, p, |subject|) <==> forall i :: p <= i < |pattern| ==> pattern[i] == STAR
    decreases |pattern| - p
  {
    if p == |pattern| {
      RestAtEnd(pattern, subject, |subject|);
    } else if pattern[p] == STAR {
      RestAtStar(pattern, subject, p, |subject|);
      assert Resumes(pattern, subject, p, |subject|) <==> Rest(pattern, subject, p + 1, |subject|);
      RestOfSpent(pattern, subject, p + 1);
    } else {
      RestAtOne(pattern, subject, p, |subject|);
    }
  }

  // ---------- The class loop ----------

  lemma AnyHasCons(item: Item, rest: seq<Item>, b: byte)
    ensures AnyHas([item] + rest, b) <==> ItemHas(item, b) || AnyHas(rest, b)
  {
    var items := [item] + rest;
    if ItemHas(item, b) {
      assert ItemHas(items[0], b);
    }
    if i :| 0 <= i < |rest| && ItemHas(rest[i], b) {
      assert ItemHas(items[i + 1], b);
    }
  }

  /** Matches one byte against the class at the head of `pattern`. */
  method ClassHit(pattern: seq<byte>, b: byte) returns (hit: bool, width: nat)
    requires pattern != [] && pattern[0] == OPEN
    ensures Head(pattern).1 == width && hit == Takes(Head(pattern).0, b)
  {
    var i := 1;
    var negated := |pattern| > 1 && pattern[1] == CARET;
    if negated {
      i := 2;
    }
    ghost var (items, end) := Items(pattern, i);
    hit := false;
    while i < |pattern| && pattern[i] != CLOSE
      invariant i <= |pattern|
      invariant Items(pattern, i).1 == end
      invariant AnyHas(items, b) <==> hit || AnyHas(Items(pattern, i).0, b)
    {
      if pattern[i] == BACKSLASH && i + 1 < |pattern| {
        AnyHasCons(Single(pattern[i + 1]), Items(pattern, i + 2).0, b);
        hit := hit || pattern[i + 1] == b;
        i := i + 2;
      } else if i + 2 < |pattern| && pattern[i + 1] == DASH {
        AnyHasCons(Range(pattern[i], pattern[i + 2]), Items(pattern, i + 3).0, b);
        var lo := if pattern[i] <= pattern[i + 2] then pattern[i] else pattern[i + 2];
        var hi := if pattern[i] <= pattern[i + 2] then pattern[i + 2] else pattern[i];
        hit := hit || lo <= b <= hi;
        i := i + 3;
      } else {
        AnyHasCons(Single(pattern[i]), Items(pattern, i + 1).0, b);
        hit := hit || pattern[i] == b;
        i := i + 1;
      }
    }
    hit, width := hit != negated, if i < |pattern| then i + 1 else i;
  }

  // ---------- The matcher ----------

  /** Some later starting point for the remembered star still matches. */
  ghost predicate Later(pattern: seq<byte>, subject: seq<byte>, star: Option<nat>, resume: nat)
    requires star.Some? ==> star.value < |pattern|
  {
    star.Some? && exists j :: resume < j <= |subject| && Resumes(pattern, subject, star.value, j)
  }

  /** Wherever the rest after the star can start, the current attempt is as far along. */
  ghost predicate Aligned(pattern: seq<byte>, subject: seq<byte>, star: Option<nat>, resume: nat, p: nat, s: nat)
    requires star.Some? ==> star.value < |pattern|
    requires p <= |pattern| && resume <= s <= |subject|
  {
    star.Some? ==>
      forall j :: resume <= j <= |subject| && Resumes(pattern, subject, star.value, j) ==>
        j + (s - resume) <= |subject| && Rest(pattern, subject, p, j + (s - resume))
  }

  /** Takes a star: what was remembered before it can no longer matter. */
  lemma TakeStar(pattern: seq<byte>, subject: seq<byte>, star: Option<nat>, resume: nat, p: nat, s: nat)
    requires (star.Some? ==> star.value < |pattern|) && p < |pattern| && resume <= s <= |subject|
    requires Aligned(pattern, subject, star, resume, p, s) && pattern[p] == STAR
    ensures (Rest(pattern, subject, p, s) || Later(pattern, subject, star, resume))
            <==> (Rest(pattern, subject, p + 1, s) || Later(pattern, subject, Some(p), s))
    ensures Aligned(pattern, subject, Some(p), s, p + 1, s)
  {
    hide Rest;
    RestAtStar(pattern, subject, p, s);
    assert Resumes(pattern, subject, p, s) <==> Rest(pattern, subject, p + 1, s);
    if Later(pattern, subject, star, resume) {
      var j :| resume < j <= |subject| && Resumes(pattern, subject, star.value, j);
      RestAtStar(pattern, subject, p, j + (s - resume));
    }
  }

  /** Takes one byte: every attempt in step moves on with it. */
  lemma TakeOne(pattern: seq<byte>, subject: seq<byte>, star: Option<nat>, resume: nat, p: nat, s: nat)
    requires (star.Some? ==> star.value < |pattern|) && p < |pattern| && resume <= s < |subject|
    requires Aligned(pattern, subject, star, resume, p, s) && pattern[p] != STAR
    requires Takes(Head(pattern[p..]).0, subject[s])
    ensures var width := Head(pattern[p..]).1;
            && (Rest(pattern, subject, p, s) <==> Rest(pattern, subject, p + width, s + 1))
            && Aligned(pattern, subject, star, resume, p + width, s + 1)
  {
    hide Rest, Takes;
    RestAtOne(pattern, subject, p, s);
    if star.Some? {
      forall j | resume <= j <= |subject| && Resumes(pattern, subject, star.value, j)
        ensures j + (s + 1 - resume) <= |subject|
        ensures Rest(pattern, subject, p + Head(pattern[p..]).1, j + (s + 1 - resume))
      {
        RestAtOne(pattern, subject, p, j + (s - resume));
      }
    }
  }

  /** Gives up an attempt: the star tries its next start, or there is no match. */
  lemma GiveBack(pattern: seq<byte>, subject: seq<byte>, star: Option<nat>, resume: nat, p: nat, s: nat)
    requires (star.Some? ==> star.value < |pattern|) && p <= |pattern| && resume <= s < |subject|
    requires !Rest(pattern, subject, p, s)
    ensures Later(pattern, subject, star, resume)
            <==> star.Some? && (Rest(pattern, subject, star.value + 1, resume + 1)
                                || Later(pattern, subject, star, resume + 1))
    ensures star.Some? ==> Aligned(pattern, subject, star, resume + 1, star.value + 1, resume + 1)
  {
    hide Rest;
    if star.Some? {
      assert Resumes(pattern, subject, star.value, resume + 1) <==> Rest(pattern, subject, star.value + 1, resume + 1);
    }
  }

  /** Gives a failed attempt back to the last star: there was a later match to find exactly if the
      star, begun one byte further on, matches now or later; with no star there is none. */
  method Backtrack(star: Option<nat>, resume: nat, ghost pattern: seq<byte>, ghost subject: seq<byte>,
                   ghost p0: nat, ghost s0: nat)
    returns (ok: bool, p: nat, s: nat, resume': nat)
    requires (star.Some? ==> star.value < |pattern|) && p0 <= |pattern| && resume <= s0 < |subject|
    requires !Rest(pattern, subject, p0, s0)
    ensures ok <==> star.Some?
    ensures ok ==> star.value < p <= |pattern| && resume < resume' == s <= |subject|
    ensures Later(pattern, subject, star, resume)
            <==> ok && (Rest(pattern, subject, p, s) || Later(pattern, subject, star, resume'))
    ensures ok ==> Aligned(pattern, subject, star, resume', p, s)
  {
    hide Rest, Later, Aligned;
    GiveBack(pattern, subject, star, resume, p0, s0);
    match star
    case Some(at) => return true, at + 1, resume + 1, resume + 1;
    case None => return false, 0, 0, resume;
  }

  lemma NothingRemembered(pattern: seq<byte>, subject: seq<byte>)
    ensures Rest(pattern, subject, 0, 0) <==> Accepts(Tokens(pattern), subject)
    ensures Aligned(pattern, subject, None, 0, 0, 0)
    ensures forall resume: nat :: !Later(pattern, subject, None, resume)
  {
    assert pattern[0..] == pattern && subject[0..] == subject;
  }

  /** With the subject spent, no later start is left. */
  lemma SpentLater(pattern: seq<byte>, subject: seq<byte>, star: Option<nat>, resume: nat, p: nat)
    requires (star.Some? ==> star.value < |pattern|) && p <= |pattern| && resume <= |subject|
    requires Aligned(pattern, subject, star, resume, p, |subject|)
    ensures !Later(pattern, subject, star, resume)
  {
    hide Rest;
  }

  /** How far the matcher has come: whole restarts first, then pattern within this one. */
  function Cost(resume: nat, p: nat, w: nat): nat
  {
    if resume == 0 then p else w + Cost(resume - 1, p, w)
  }

  lemma {:induction false} CostGrows(a: nat, b: nat, p: nat, q: nat, w: nat)
    requires a <= b && p < w
    ensures a < b ==> Cost(a, p, w) < Cost(b, q, w) + (if q == 0 then 1 else 0)
    ensures p < q ==> Cost(a, p, w) < Cost(b, q, w)
    decreases b
  {
    if a > 0 {
      CostGrows(a - 1, b - 1, p, q, w);
    } else if b > 0 {
      CostAtLeast(b, q, w);
    }
  }

  lemma {:induction false} CostAtLeast(b: nat, q: nat, w: nat)
    requires b > 0
    ensures Cost(b, q, w) >= w + q
  {
    if b > 1 {
      CostAtLeast(b - 1, q, w);
    }
  }

  lemma {:induction false} CostBound(a: nat, b: nat, p: nat, w: nat)
    requires a <= b && p < w
    ensures Cost(a, p, w) < (b + 1) * w
  {
    if a > 0 {
      CostBound(a - 1, b - 1, p, w);
      assert (b + 1) * w == b * w + w;
    } else {
      assert (b + 1) * w == b * w + w;
      assert b * w >= 0;
    }
  }

  /** Whether `subject` matches `pattern`, counting the loop's iterations. */
  method Matches(pattern: seq<byte>, subject: seq<byte>) returns (r: bool, ghost steps: nat)
    ensures r <==> Accepts(Tokens(pattern), subject)
    ensures steps <= (|subject| + 1) * (|pattern| + 1)
  {
    hide Accepts, Tokens, Aligned, Later, Head, Takes, Rest, Cost;
    var p: nat, s: nat := 0, 0;
    var star: Option<nat>, resume: nat := None, 0;
    NothingRemembered(pattern, subject);
    steps := 0;
    ghost var answer := Rest(pattern, subject, 0, 0);
    while s < |subject|
      invariant p <= |pattern| && resume <= s <= |subject|
      invariant star.Some? ==> star.value < |pattern|
      invariant answer <==> Rest(pattern, subject, p, s) || Later(pattern, subject, star, resume)
      invariant Aligned(pattern, subject, star, resume, p, s)
      invariant steps <= Cost(resume, p, |pattern| + 1)
      decreases |subject| - resume, |pattern| - p
    {
      steps := steps + 1;
      var hit, width := false, 0;
      if p < |pattern| && pattern[p] == STAR {
        TakeStar(pattern, subject, star, resume, p, s);
        CostGrows(resume, s, p, p + 1, |pattern| + 1);
        star, resume, p := Some(p), s, p + 1;
      } else {
        if p < |pattern| {
          hit, width := TakeHead(pattern, p, subject[s]);
          RestAtOne(pattern, subject, p, s);
        } else {
          RestAtEnd(pattern, subject, s);
        }
        if hit {
          TakeOne(pattern, subject, star, resume, p, s);
          CostGrows(resume, resume, p, p + width, |pattern| + 1);
          p, s := p + width, s + 1;
        } else {
          var ok, p', s', resume' := Backtrack(star, resume, pattern, subject, p, s);
          if !ok {
            CostBound(resume, |subject|, p, |pattern| + 1);
            return false, steps;
          }
          CostGrows(resume, resume', p, p', |pattern| + 1);
          p, s, resume := p', s', resume';
        }
      }
    }
    CostBound(resume, |subject|, p, |pattern| + 1);
    SpentLater(pattern, subject, star, resume, p);
    RestOfSpent(pattern, subject, p);
    r := true;
    for i := p to |pattern|
      invariant r <==> forall j :: p <= j < i ==> pattern[j] == STAR
    {
      r := r && pattern[i] == STAR;
    }
  }

  /** Matches one byte against whatever stands at offset `p`. */
  method TakeHead(pattern: seq<byte>, p: nat, b: byte) returns (hit: bool, width: nat)
    requires p < |pattern| && pattern[p] != STAR
    ensures width == Head(pattern[p..]).1 && hit == Takes(Head(pattern[p..]).0, b)
  {
    if pattern[p] == QUESTION {
      return true, 1;
    } else if pattern[p] == OPEN {
      hit, width := ClassHit(pattern[p..], b);
    } else if pattern[p] == BACKSLASH && p + 1 < |pattern| {
      return pattern[p + 1] == b, 2;
    } else {
      return pattern[p] == b, 1;
    }
  }
}
