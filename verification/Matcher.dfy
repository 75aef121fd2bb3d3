/** The wildcard matcher of the web server: `?` takes one character and `#` takes any string. */
module Matcher {

  /** What a pattern means, without any search order. */
  predicate Matches(p: string, s: string)
    decreases |p| + |s|
  {
    if p == "" then s == ""
    else if p[0] == '#' then Matches(p[1..], s) || (s != "" && Matches(p, s[1..]))
    else s != "" && (p[0] == '?' || p[0] == s[0]) && Matches(p[1..], s[1..])
  }

  /** The four indices of the loop, or its answer. */
  datatype Search = At(i: nat, j: nat, ni: nat, nj: nat) | Answer(yes: bool)

  /** Indices that the loop can reach. */
  predicate InRange(p: string, s: string, st: Search) {
    st.At? ==> st.i <= |p| && st.j <= |s| && st.ni <= st.i && st.nj <= |s| + 1
               && (st.nj > 0 ==> st.ni < |p| && p[st.ni] == '#')
  }

  const BEGIN := At(0, 0, 0, 0)

  /** One turn of the loop, without captures. `*` is not among the patterns. */
  function Turn(p: string, s: string, st: Search): (next: Search)
    requires InRange(p, s, st)
    ensures InRange(p, s, next)
  {
    if st.Answer? then st
    else
      var At(i, j, ni, nj) := st;
      if i == |p| && j == |s| then Answer(true)
      else if i < |p| && j < |s| && (p[i] == '?' || s[j] == p[i]) then At(i + 1, j + 1, ni, nj)
      else if i < |p| && p[i] == '#' then At(i + 1, j, i, j + 1)
      else if 0 < nj <= |s| then At(ni, nj, ni, nj)
      else Answer(false)
  }

  function Turns(p: string, s: string, n: nat): (st: Search)
    ensures InRange(p, s, st)
  {
    if n == 0 then BEGIN else Turn(p, s, Turns(p, s, n - 1))
  }

  predicate Without(c: char, s: string) {
    forall k | 0 <= k < |s| :: s[k] != c
  }

  // ---------- Facts about the meaning ----------

  lemma HashTakesAny(p: string, s: string, k: nat)
    requires p != "" && p[0] == '#' && k <= |s| && Matches(p, s[k..])
    ensures Matches(p, s)
    decreases k
  {
    if k > 0 {
      assert s[1..][k - 1..] == s[k..];
      HashTakesAny(p, s[1..], k - 1);
    } else {
      assert s[0..] == s;
    }
  }

  /** A `#` that matches leaves some suffix to the rest of the pattern. */
  lemma {:induction false} HashSplits(p: string, s: string) returns (k: nat)
    requires p != "" && p[0] == '#' && Matches(p, s)
    ensures k <= |s| && Matches(p[1..], s[k..])
    decreases |s|
  {
    if Matches(p[1..], s) {
      k := 0;
      assert s[0..] == s;
    } else {
      var m := HashSplits(p, s[1..]);
      k := m + 1;
      assert s[1..][m..] == s[k..];
    }
  }

  /** A stretch of pattern without `#` takes exactly as many characters as it has. */
  lemma {:induction false} PlainStretch(p: string, s: string, n: nat)
    requires n <= |p| && Without('#', p[..n]) && Matches(p, s)
    ensures n <= |s| && Matches(p[n..], s[n..])
    decreases n
  {
    if n > 0 {
      assert p[0] == p[..n][0];
      assert p[1..][..n - 1] == p[..n][1..];
      PlainStretch(p[1..], s[1..], n - 1);
      assert p[1..][n - 1..] == p[n..] && s[1..][n - 1..] == s[n..];
    } else {
      assert p[0..] == p && s[0..] == s;
    }
  }

  // ---------- The single backtrack point is enough ----------

  /** What is left to match, from the current indices or from the backtrack point. */
  ghost predicate Promising(p: string, s: string, st: Search)
    requires InRange(p, s, st)
  {
    match st
    case Answer(yes) => yes
    case At(i, j, ni, nj) =>
      Matches(p[i..], s[j..]) || (0 < nj <= |s| && Matches(p[ni..], s[nj..]))
  }

  /** Since the last `#` the two indices moved together, over pattern characters that are not `#`. */
  predicate Aligned(p: string, st: Search) {
    st.At? && st.ni <= st.i <= |p| ==>
      if st.nj == 0 then st.j == st.i && Without('#', p[..st.i])
      else (st.i == st.ni && st.j == st.nj) ||
           (st.i > st.ni && st.j + 2 + st.ni == st.nj + st.i && Without('#', p[st.ni + 1..st.i]))
  }

  ghost predicate Sound(p: string, s: string, st: Search) {
    InRange(p, s, st) && Aligned(p, st) && (Promising(p, s, st) <==> Matches(p, s))
  }

  /** Restarting an earlier `#` cannot help once a later `#` is reached: what the earlier one could skip, the later
      one can skip as well. */
  lemma LaterHashSuffices(p: string, s: string, i: nat, j: nat, ni: nat, nj: nat)
    requires ni <= i < |p| && j <= |s| && 0 < nj <= |s|
    requires p[ni] == '#' && p[i] == '#'
    requires i > ni && j + 2 + ni == nj + i && Without('#', p[ni + 1..i])
    requires Matches(p[ni..], s[nj..])
    ensures Matches(p[i..], s[j..])
  {
    var k := HashSplits(p[ni..], s[nj..]);
    var rest, tail := p[ni + 1..], s[nj + k..];
    assert p[ni..][1..] == rest && s[nj..][k..] == tail;
    var n := i - ni - 1;
    assert rest[..n] == p[ni + 1..i];
    PlainStretch(rest, tail, n);
    assert rest[n..] == p[i..];
    assert tail[n..] == s[j..][k + 1..];
    HashTakesAny(p[i..], s[j..], k + 1);
  }

  lemma PlainTurnIsSound(p: string, s: string, i: nat, j: nat, ni: nat, nj: nat)
    requires Without('#', s) && Sound(p, s, At(i, j, ni, nj))
    requires i < |p| && j < |s| && (p[i] == '?' || s[j] == p[i])
    ensures Sound(p, s, At(i + 1, j + 1, ni, nj))
  {
    assert p[i..][1..] == p[i + 1..] && s[j..][1..] == s[j + 1..];
    assert p[i] != '#';
    assert p[..i + 1] == p[..i] + [p[i]];
    if ni < i {
      assert p[ni + 1..i + 1] == p[ni + 1..i] + [p[i]];
    }
  }

  lemma HashTurnIsSound(p: string, s: string, i: nat, j: nat, ni: nat, nj: nat)
    requires Sound(p, s, At(i, j, ni, nj)) && i < |p| && p[i] == '#'
    ensures Sound(p, s, At(i + 1, j, i, j + 1))
  {
    assert p[i..][1..] == p[i + 1..];
    if j < |s| {
      assert s[j..][1..] == s[j + 1..];
    }
    if 0 < nj <= |s| && Matches(p[ni..], s[nj..]) && !(i == ni && j == nj) {
      LaterHashSuffices(p, s, i, j, ni, nj);
    }
    assert Matches(p[i..], s[j..]) <==> Promising(p, s, At(i + 1, j, i, j + 1));
  }

  lemma TurnIsSound(p: string, s: string, st: Search)
    requires Without('#', s) && Sound(p, s, st)
    ensures Sound(p, s, Turn(p, s, st))
  {
    if st.At? {
      var At(i, j, ni, nj) := st;
      if i == |p| && j == |s| {
        assert Matches(p[i..], s[j..]);
        assert Promising(p, s, st);
      } else if i < |p| && j < |s| && (p[i] == '?' || s[j] == p[i]) {
        PlainTurnIsSound(p, s, i, j, ni, nj);
      } else if i < |p| && p[i] == '#' {
        HashTurnIsSound(p, s, i, j, ni, nj);
      } else {
        StuckTurnIsSound(p, s, i, j, ni, nj);
      }
    }
  }

  /** Where no character fits and no `#` stands, only the backtrack point is left. */
  lemma StuckTurnIsSound(p: string, s: string, i: nat, j: nat, ni: nat, nj: nat)
    requires Sound(p, s, At(i, j, ni, nj)) && !(i == |p| && j == |s|)
    requires !(i < |p| && j < |s| && (p[i] == '?' || s[j] == p[i])) && !(i < |p| && p[i] == '#')
    ensures Sound(p, s, if 0 < nj <= |s| then At(ni, nj, ni, nj) else Answer(false))
  {
    assert !Matches(p[i..], s[j..]);
  }

  /** A turn that does not answer makes this measure smaller, component by component from the left. */
  function Rank(p: string, s: string, st: Search): (nat, nat, nat, nat)
    requires InRange(p, s, st) && st.At?
  {
    (|s| + 1 - st.nj, |p| - st.ni,
     if st.nj > 0 && st.i == st.ni && st.j == st.nj then 0 else 1,
     |p| - st.i)
  }

  predicate Smaller(a: (nat, nat, nat, nat), b: (nat, nat, nat, nat)) {
    a.0 < b.0 || (a.0 == b.0 && (a.1 < b.1 || (a.1 == b.1 && (a.2 < b.2 || (a.2 == b.2 && a.3 < b.3)))))
  }

  lemma TurnDescends(p: string, s: string, st: Search)
    requires Without('#', s) && Sound(p, s, st) && st.At? && Turn(p, s, st).At?
    ensures Smaller(Rank(p, s, Turn(p, s, st)), Rank(p, s, st))
  {
  }

  lemma {:induction false} SearchEnds(p: string, s: string, n: nat) returns (m: nat)
    requires Without('#', s) && Sound(p, s, Turns(p, s, n))
    ensures Turns(p, s, m) == Answer(Matches(p, s))
    decreases if Turns(p, s, n).At? then 1 else 0,
              if Turns(p, s, n).At? then Rank(p, s, Turns(p, s, n)).0 else 0,
              if Turns(p, s, n).At? then Rank(p, s, Turns(p, s, n)).1 else 0,
              if Turns(p, s, n).At? then Rank(p, s, Turns(p, s, n)).2 else 0,
              if Turns(p, s, n).At? then Rank(p, s, Turns(p, s, n)).3 else 0
  {
    var st := Turns(p, s, n);
    if st.Answer? {
      m := n;
    } else {
      TurnIsSound(p, s, st);
      if Turn(p, s, st).At? {
        TurnDescends(p, s, st);
      }
      m := SearchEnds(p, s, n + 1);
    }
  }

  /** The loop ends, with the right answer. */
  ghost predicate Decides(p: string, s: string) {
    exists n: nat :: Turns(p, s, n) == Answer(Matches(p, s))
  }

  lemma BeginIsSound(p: string, s: string)
    ensures Sound(p, s, BEGIN)
  {
    assert p[0..] == p && s[0..] == s;
  }

  /** For every pattern without `*` and every subject without `#`: the loop terminates and answers whether the subject
      splits into what the pattern asks for. */
  lemma MatchIsExact(p: string, s: string)
    requires Without('*', p) && Without('#', s)
    ensures Decides(p, s)
  {
    BeginIsSound(p, s);
    var n := SearchEnds(p, s, 0);
  }

  /** Whatever the subject contains, the loop never accepts what the pattern does not mean. */
  lemma {:induction false} AcceptsOnlyMatches(p: string, s: string, n: nat)
    requires Without('*', p)
    ensures Promising(p, s, Turns(p, s, n)) ==> Matches(p, s)
    decreases n
  {
    if n == 0 {
      assert p[0..] == p && s[0..] == s;
    } else {
      AcceptsOnlyMatches(p, s, n - 1);
      var st := Turns(p, s, n - 1);
      if st.At? && Promising(p, s, Turns(p, s, n)) {
        TurnAddsNoPromise(p, s, st.i, st.j, st.ni, st.nj);
      }
    }
  }

  lemma TurnAddsNoPromise(p: string, s: string, i: nat, j: nat, ni: nat, nj: nat)
    requires InRange(p, s, At(i, j, ni, nj)) && Promising(p, s, Turn(p, s, At(i, j, ni, nj)))
    ensures Promising(p, s, At(i, j, ni, nj))
  {
    if i < |p| {
      assert p[i..][1..] == p[i + 1..];
    }
    if j < |s| {
      assert s[j..][1..] == s[j + 1..];
    }
  }

  // ---------- Subjects that contain `#` ----------

  function Questions(n: nat): (p: string)
    ensures |p| == n && forall k | 0 <= k < n :: p[k] == '?'
  {
    seq(n, _ => '?')
  }

  lemma {:induction false} QuestionsMatch(s: string)
    ensures Matches(Questions(|s|), s)
    decreases |s|
  {
    if s != "" {
      QuestionsMatch(s[1..]);
      assert Questions(|s|)[1..] == Questions(|s| - 1);
    }
  }

  /** One `#` among as many `?` as the subject has characters: it matches, with the `#` taking nothing. */
  function Ambush(s: string, k: nat): string
    requires k < |s|
  {
    Questions(k) + "#" + Questions(|s| - k)
  }

  lemma {:induction false} AmbushMatches(s: string, k: nat)
    requires k < |s|
    ensures Matches(Ambush(s, k), s)
    decreases k
  {
    var p := Ambush(s, k);
    if k == 0 {
      assert p[1..] == Questions(|s|);
      QuestionsMatch(s);
    } else {
      assert p[0] == '?' && p[1..] == Ambush(s[1..], k - 1);
      AmbushMatches(s[1..], k - 1);
    }
  }

  /** The loop takes the `#` of the pattern for the literal `#` of the subject and has nowhere to go back to. */
  lemma {:induction false} AmbushWalk(s: string, k: nat, n: nat)
    requires k < |s| && s[k] == '#' && n <= |s|
    ensures Turns(Ambush(s, k), s, n) == At(n, n, 0, 0)
    decreases n
  {
    if n > 0 {
      AmbushWalk(s, k, n - 1);
    }
  }

  lemma {:induction false} AnswerStays(p: string, s: string, n: nat, m: nat)
    requires Turns(p, s, n).Answer? && n <= m
    ensures Turns(p, s, m) == Turns(p, s, n)
    decreases m
  {
    if n < m {
      AnswerStays(p, s, n, m - 1);
    }
  }

  lemma AmbushAnswer(s: string, k: nat)
    requires k < |s| && s[k] == '#'
    ensures Turns(Ambush(s, k), s, |s| + 1) == Answer(false)
  {
    AmbushWalk(s, k, |s|);
    assert Ambush(s, k)[|s|] == '?';
  }

  lemma AmbushHasNoStar(s: string, k: nat)
    requires k < |s|
    ensures Without('*', Ambush(s, k))
  {
  }

  lemma OneAnswer(p: string, s: string, n: nat, m: nat)
    requires Turns(p, s, n).Answer? && Turns(p, s, m).Answer?
    ensures Turns(p, s, n) == Turns(p, s, m)
  {
    hide Turns;
    AnswerStays(p, s, n, n + m);
    AnswerStays(p, s, m, n + m);
  }

  lemma WrongAnswer(p: string, s: string, n: nat)
    requires Turns(p, s, n) == Answer(false) && Matches(p, s)
    ensures !Decides(p, s)
  {
    hide Turns, Matches;
    forall m: nat
      ensures Turns(p, s, m) != Answer(true)
    {
      if Turns(p, s, m).Answer? {
        OneAnswer(p, s, n, m);
      }
    }
  }

  lemma AmbushFails(s: string, k: nat)
    requires k < |s| && s[k] == '#'
    ensures Without('*', Ambush(s, k)) && !Decides(Ambush(s, k), s)
  {
    hide Turns, Matches, Decides, Ambush, Without;
    AmbushHasNoStar(s, k);
    AmbushMatches(s, k);
    AmbushAnswer(s, k);
    WrongAnswer(Ambush(s, k), s, |s| + 1);
  }

  /** Exactly the subjects without `#` are matched correctly by all patterns without `*`. */
  lemma ExactForAllPatternsIffNoHash(s: string)
    ensures (forall p | Without('*', p) :: Decides(p, s)) <==> Without('#', s)
  {
    if Without('#', s) {
      forall p | Without('*', p)
        ensures Decides(p, s)
      {
        MatchIsExact(p, s);
      }
    } else {
      var k :| 0 <= k < |s| && s[k] == '#';
      AmbushFails(s, k);
    }
  }

  /** With `#` in the subject the loop need not even end. */
  lemma {:induction false} SearchCanCycle(n: nat)
    requires n >= 3
    ensures Turns("#a", "x#", n).At?
    ensures n % 2 == 1 ==> Turns("#a", "x#", n) == At(1, 2, 0, 1)
    ensures n % 2 == 0 ==> Turns("#a", "x#", n) == At(0, 1, 0, 1)
  {
    if n > 3 {
      SearchCanCycle(n - 1);
    }
  }

  // ---------- The loop itself ----------

  lemma AnswerIsSound(p: string, s: string, yes: bool)
    requires Sound(p, s, Answer(yes))
    ensures yes == Matches(p, s)
  {
    hide Matches;
  }

  /** Going back never repeats: the indices have moved on since the backtrack point was set. */
  lemma BackDescends(p: string, s: string, i: nat, j: nat, ni: nat, nj: nat)
    requires Sound(p, s, At(i, j, ni, nj))
    ensures 0 < nj && !(i < |p| && p[i] == '#') ==> !(i == ni && j == nj)
  {
  }

  method Match(s: string, p: string) returns (yes: bool)
    requires Without('*', p) && Without('#', s)
    ensures yes == Matches(p, s)
  {
    var i: nat, j: nat, ni: nat, nj: nat := 0, 0, 0, 0;
    BeginIsSound(p, s);
    hide Matches, Sound, Without;
    while i < |p| || j < |s|
      invariant InRange(p, s, At(i, j, ni, nj)) && Sound(p, s, At(i, j, ni, nj))
      decreases |s| + 1 - nj, |p| - ni, if nj > 0 && i == ni && j == nj then 0 else 1, |p| - i
    {
      TurnIsSound(p, s, At(i, j, ni, nj));
      BackDescends(p, s, i, j, ni, nj);
      if i < |p| && j < |s| && (p[i] == '?' || s[j] == p[i]) {
        i, j := i + 1, j + 1;
      } else if i < |p| && p[i] == '#' {
        ni, nj := i, j + 1;
        i := i + 1;
      } else if 0 < nj <= |s| {
        i, j := ni, nj;
      } else {
        AnswerIsSound(p, s, false);
        return false;
      }
    }
    TurnIsSound(p, s, At(i, j, ni, nj));
    AnswerIsSound(p, s, true);
    return true;
  }
}
