/** Which group rule applies (src/config.rs): the first rule for the very group if it
    carries the value, the most specific matching pattern that does otherwise. */
module RuleLookup {
  import opened Text

  datatype Rule = Rule(group: Option<string>, pattern: Option<string>, retentionDays: Option<int>, maxArticleBytes: Option<nat>)

  /** What rules are sorted by: fewer wildcards first, then longer patterns. */
  datatype Specificity = Specificity(wildcards: nat, negatedLength: int)

  type Matcher = (string, string) -> bool

  predicate MoreSpecific(a: Specificity, b: Specificity) {
    a.wildcards < b.wildcards || (a.wildcards == b.wildcards && a.negatedLength < b.negatedLength)
  }

  function Wildcards(p: string): nat {
    if p == "" then 0
    else
      var last := |p| - 1;
      Wildcards(p[..last]) + if p[last] == '*' || p[last] == '?' then 1 else 0
  }

  function KeyOf(rule: Rule): Specificity {
    if rule.pattern.None? then Specificity(0, 0)
    else
      var length: int := Bytes(rule.pattern.value);
      Specificity(Wildcards(rule.pattern.value), -length)
  }

  predicate Candidate(rule: Rule, group: string, wild: Matcher, carries: Rule -> bool) {
    rule.group.None? && rule.pattern.Some? && wild(rule.pattern.value, group) && carries(rule)
  }

  /** A reference to the rule at a position, with its sort key. */
  datatype Match = Match(at: nat, key: Specificity)

  predicate Matches(rules: seq<Rule>, group: string, wild: Matcher, carries: Rule -> bool, m: Match) {
    m.at < |rules| && Candidate(rules[m.at], group, wild, carries) && m.key == KeyOf(rules[m.at])
  }

  /** The matching pattern rules, in order. */
  function Candidates(rules: seq<Rule>, group: string, wild: Matcher, carries: Rule -> bool): (r: seq<Match>)
    ensures forall m :: m in r <==> Matches(rules, group, wild, carries, m)
    ensures forall j, k :: 0 <= j < k < |r| ==> r[j].at < r[k].at
  {
    if rules == [] then []
    else
      var last := |rules| - 1;
      var before := Candidates(rules[..last], group, wild, carries);
      assert forall k :: 0 <= k < |before| ==> before[k] in before;
      if Candidate(rules[last], group, wild, carries) then before + [Match(last, KeyOf(rules[last]))] else before
  }

  // ---- A stable sort ----

  function Insert(m: Match, s: seq<Match>): (r: seq<Match>)
    ensures forall n :: n in r <==> n == m || n in s
  {
    if s == [] || !MoreSpecific(s[0].key, m.key) then [m] + s else [s[0]] + Insert(m, s[1..])
  }

  function SortByKey(s: seq<Match>): (r: seq<Match>)
    ensures forall n :: n in r <==> n in s
  {
    if s == [] then [] else Insert(s[0], SortByKey(s[1..]))
  }

  predicate Ordered(s: seq<Match>) { forall j, k :: 0 <= j < k < |s| ==> !MoreSpecific(s[k].key, s[j].key) }

  function WithKey(s: seq<Match>, key: Specificity): seq<Match> {
    if s == [] then [] else (if s[0].key == key then [s[0]] else []) + WithKey(s[1..], key)
  }

  /** `t` is `s` in order, and matches with the same key keep theirs. */
  ghost predicate StablySorted(s: seq<Match>, t: seq<Match>) {
    Ordered(t) && forall key :: WithKey(t, key) == WithKey(s, key)
  }

  lemma {:induction false} InsertOrdered(m: Match, s: seq<Match>)
    requires Ordered(s)
    ensures Ordered(Insert(m, s))
  {
    if s != [] && MoreSpecific(s[0].key, m.key) {
      InsertOrdered(m, s[1..]);
      var rest := Insert(m, s[1..]);
      forall k | 0 <= k < |rest|
        ensures !MoreSpecific(rest[k].key, s[0].key)
      {
        assert rest[k] in rest;
      }
    }
  }

  lemma {:induction false} InsertKeeps(m: Match, s: seq<Match>, key: Specificity)
    ensures WithKey(Insert(m, s), key) == (if m.key == key then [m] else []) + WithKey(s, key)
  {
    if s != [] && MoreSpecific(s[0].key, m.key) {
      InsertKeeps(m, s[1..], key);
      assert Insert(m, s)[1..] == Insert(m, s[1..]);
    } else {
      assert Insert(m, s)[1..] == s;
    }
  }

  lemma {:induction false} SortIsStable(s: seq<Match>)
    ensures StablySorted(s, SortByKey(s))
  {
    if s != [] {
      SortIsStable(s[1..]);
      forall key
        ensures WithKey(SortByKey(s), key) == WithKey(s, key)
      {
        InsertKeeps(s[0], SortByKey(s[1..]), key);
      }
      InsertOrdered(s[0], SortByKey(s[1..]));
    }
  }

  /** The first match with a key, if any, is at the head of those with that key. */
  lemma {:induction false} WithKeyFirst(s: seq<Match>, key: Specificity)
    ensures WithKey(s, key) == [] <==> forall m :: m in s ==> m.key != key
    ensures WithKey(s, key) != [] ==>
              exists i :: 0 <= i < |s| && s[i] == WithKey(s, key)[0] && s[i].key == key
                          && forall j :: 0 <= j < i ==> s[j].key != key
  {
    if s != [] {
      WithKeyFirst(s[1..], key);
      assert forall m :: m in s <==> m == s[0] || m in s[1..];
      if s[0].key != key && WithKey(s[1..], key) != [] {
        var i :| 0 <= i < |s[1..]| && s[1..][i] == WithKey(s[1..], key)[0] && s[1..][i].key == key
                 && forall j :: 0 <= j < i ==> s[1..][j].key != key;
        assert s[i + 1] == s[1..][i];
        assert forall j :: 0 < j < i + 1 ==> s[j] == s[1..][j - 1];
      }
    }
  }

  /** Whatever the sort, if it is stable its first is the earliest of the most specific. */
  lemma FirstOfStable(s: seq<Match>, t: seq<Match>)
    requires StablySorted(s, t) && s != []
    ensures t != []
    ensures forall m :: m in s ==> !MoreSpecific(m.key, t[0].key)
    ensures exists i :: 0 <= i < |s| && s[i] == t[0] && forall j :: 0 <= j < i ==> MoreSpecific(t[0].key, s[j].key)
  {
    forall m | m in s
      ensures t != [] && !MoreSpecific(m.key, t[0].key)
    {
      WithKeyFirst(s, m.key);
      WithKeyFirst(t, m.key);
      assert WithKey(t, m.key) == WithKey(s, m.key);
    }
    assert s[0] in s;
    WithKeyFirst(t, t[0].key);
    WithKeyFirst(s, t[0].key);
    assert WithKey(t, t[0].key) == WithKey(s, t[0].key);
    var i :| 0 <= i < |s| && s[i] == t[0] && forall j :: 0 <= j < i ==> s[j].key != t[0].key;
    forall j | 0 <= j < i
      ensures MoreSpecific(t[0].key, s[j].key)
    {
      assert s[j] in s;
    }
  }

  // ---- The rule that applies ----

  predicate FirstExact(rules: seq<Rule>, group: string, i: nat) {
    i < |rules| && rules[i].group == Some(group) && forall j :: 0 <= j < i ==> rules[j].group != Some(group)
  }

  /** The earliest of the most specific candidates: it has the fewest wildcards, of those the
      longest pattern, and of those it comes first. */
  ghost predicate Best(rules: seq<Rule>, group: string, wild: Matcher, carries: Rule -> bool, i: nat) {
    i < |rules| && rules[i].group == None && rules[i].pattern.Some?
    && wild(rules[i].pattern.value, group) && carries(rules[i])
    && forall j :: 0 <= j < |rules| && rules[j].group == None && rules[j].pattern.Some?
                   && wild(rules[j].pattern.value, group) && carries(rules[j]) ==>
                     var p, q := rules[i].pattern.value, rules[j].pattern.value;
                     |WildPositions(p)| < |WildPositions(q)|
                     || (|WildPositions(p)| == |WildPositions(q)| && (Bytes(p) > Bytes(q) || (Bytes(p) == Bytes(q) && i <= j)))
  }

  function WildPositions(p: string): set<nat> { set i: nat | i < |p| && (p[i] == '*' || p[i] == '?') }

  lemma {:induction false} WildcardsCounted(p: string)
    ensures Wildcards(p) == |WildPositions(p)|
  {
    if p != "" {
      var last := |p| - 1;
      WildcardsCounted(p[..last]);
      assert WildPositions(p) == WildPositions(p[..last]) + if p[last] == '*' || p[last] == '?' then {last} else {};
    }
  }

  /** What the sort finds. */
  predicate BestByKey(rules: seq<Rule>, group: string, wild: Matcher, carries: Rule -> bool, i: nat) {
    i < |rules| && Candidate(rules[i], group, wild, carries)
    && (forall j :: 0 <= j < |rules| && Candidate(rules[j], group, wild, carries) ==>
                      !MoreSpecific(KeyOf(rules[j]), KeyOf(rules[i])) && (j < i ==> MoreSpecific(KeyOf(rules[i]), KeyOf(rules[j]))))
  }

  lemma BestIsByKey(rules: seq<Rule>, group: string, wild: Matcher, carries: Rule -> bool, i: nat)
    ensures Best(rules, group, wild, carries, i) <==> BestByKey(rules, group, wild, carries, i)
  {
    hide WildPositions, Wildcards;
    forall j | 0 <= j < |rules| && rules[j].pattern.Some?
      ensures KeyOf(rules[j]).wildcards == |WildPositions(rules[j].pattern.value)|
    {
      WildcardsCounted(rules[j].pattern.value);
    }
  }

  ghost predicate ExactCarries(rules: seq<Rule>, group: string, carries: Rule -> bool) {
    exists i: nat :: FirstExact(rules, group, i) && carries(rules[i])
  }

  /** The rule at position `i` decides. */
  ghost predicate Applies(rules: seq<Rule>, group: string, wild: Matcher, carries: Rule -> bool, i: nat) {
    if ExactCarries(rules, group, carries) then FirstExact(rules, group, i) else Best(rules, group, wild, carries, i)
  }

  /** No rule decides: the first exact rule does not carry the value and no pattern that matches does. */
  ghost predicate NoneApplies(rules: seq<Rule>, group: string, wild: Matcher, carries: Rule -> bool) {
    !ExactCarries(rules, group, carries)
    && forall i :: 0 <= i < |rules| ==> !Candidate(rules[i], group, wild, carries)
  }

  lemma SortedFirstIsBest(rules: seq<Rule>, group: string, wild: Matcher, carries: Rule -> bool, t: seq<Match>)
    requires StablySorted(Candidates(rules, group, wild, carries), t) && Candidates(rules, group, wild, carries) != []
    ensures t != [] && Best(rules, group, wild, carries, t[0].at)
  {
    hide Best;
    var s := Candidates(rules, group, wild, carries);
    FirstOfStable(s, t);
    var i :| 0 <= i < |s| && s[i] == t[0] && forall j :: 0 <= j < i ==> MoreSpecific(t[0].key, s[j].key);
    assert s[i] in s;
    forall j | 0 <= j < |rules| && Candidate(rules[j], group, wild, carries)
      ensures !MoreSpecific(KeyOf(rules[j]), t[0].key) && (j < t[0].at ==> MoreSpecific(t[0].key, KeyOf(rules[j])))
    {
      var m := Match(j, KeyOf(rules[j]));
      assert Matches(rules, group, wild, carries, m) && m in s;
      EarlierMatch(s, i, m);
    }
    BestIsByKey(rules, group, wild, carries, t[0].at);
  }

  lemma EarlierMatch(s: seq<Match>, i: nat, m: Match)
    requires i < |s| && m in s && forall j, k :: 0 <= j < k < |s| ==> s[j].at < s[k].at
    requires forall j :: 0 <= j < i ==> MoreSpecific(s[i].key, s[j].key)
    ensures m.at < s[i].at ==> MoreSpecific(s[i].key, m.key)
  {
    var k :| 0 <= k < |s| && s[k] == m;
  }

  /** What the lookup comes to: the deciding rule, or none. */
  ghost predicate Chooses(rules: seq<Rule>, group: string, wild: Matcher, carries: Rule -> bool, r: Option<Rule>) {
    match r
    case None => NoneApplies(rules, group, wild, carries)
    case Some(rule) => exists i: nat :: Applies(rules, group, wild, carries, i) && rules[i] == rule
  }

  /** Every list of rules chooses, and chooses one. */
  lemma ChoosesOne(rules: seq<Rule>, group: string, wild: Matcher, carries: Rule -> bool, r: Option<Rule>)
      returns (choice: Option<Rule>)
    ensures Chooses(rules, group, wild, carries, choice)
    ensures Chooses(rules, group, wild, carries, r) ==> r == choice
  {
    var s := Candidates(rules, group, wild, carries);
    if ExactCarries(rules, group, carries) {
      var i: nat :| FirstExact(rules, group, i) && carries(rules[i]);
      assert Applies(rules, group, wild, carries, i);
      return Some(rules[i]);
    } else if s == [] {
      assert forall j :: 0 <= j < |rules| && Candidate(rules[j], group, wild, carries) ==>
                           Match(j, KeyOf(rules[j])) in s;
      return None;
    } else {
      assert s[0] in s;
      SortIsStable(s);
      SortedFirstIsBest(rules, group, wild, carries, SortByKey(s));
      var i := SortByKey(s)[0].at;
      assert Applies(rules, group, wild, carries, i);
      return Some(rules[i]);
    }
  }

  /** The first exact rule if it carries the value, else the first of the sorted matches. */
  method FindRule(rules: seq<Rule>, group: string, wild: Matcher, carries: Rule -> bool) returns (r: Option<Rule>)
    ensures Chooses(rules, group, wild, carries, r)
    ensures forall i: nat | i < |rules| && rules[i].group == Some(group) && carries(rules[i])
                            && (forall j :: 0 <= j < i ==> rules[j].group != Some(group)) :: r == Some(rules[i])
  {
    var i := 0;
    while i < |rules| && rules[i].group != Some(group)
      invariant 0 <= i <= |rules| && forall j :: 0 <= j < i ==> rules[j].group != Some(group)
    {
      i := i + 1;
    }
    if i < |rules| && carries(rules[i]) {
      assert FirstExact(rules, group, i);
      return Some(rules[i]);
    }
    var matches := Candidates(rules, group, wild, carries);
    if matches == [] {
      assert forall j :: 0 <= j < |rules| && Candidate(rules[j], group, wild, carries) ==>
                           Match(j, KeyOf(rules[j])) in matches;
      return None;
    }
    assert matches[0] in matches;
    SortIsStable(matches);
    matches := SortByKey(matches);
    SortedFirstIsBest(rules, group, wild, carries, matches);
    assert Applies(rules, group, wild, carries, matches[0].at);
    return Some(rules[matches[0].at]);
  }

  predicate CarriesRetention(rule: Rule) { rule.retentionDays.Some? }

  predicate CarriesMaxSize(rule: Rule) { rule.maxArticleBytes.Some? }

  /** Days that are not positive mean no limit, and no other rule is asked. */
  method RetentionForGroup(rules: seq<Rule>, group: string, wild: Matcher) returns (r: Option<int>)
    ensures forall i: nat | Applies(rules, group, wild, CarriesRetention, i) ::
              rules[i].retentionDays.Some?
              && r == if rules[i].retentionDays.value > 0 then rules[i].retentionDays else None
    ensures NoneApplies(rules, group, wild, CarriesRetention) ==> r == None
  {
    var rule := FindRule(rules, group, wild, CarriesRetention);
    if rule.Some? && rule.value.retentionDays.value > 0 {
      return rule.value.retentionDays;
    }
    return None;
  }

  method MaxSizeForGroup(rules: seq<Rule>, group: string, wild: Matcher) returns (r: Option<nat>)
    ensures forall i: nat | Applies(rules, group, wild, CarriesMaxSize, i) :: r.Some? && r == rules[i].maxArticleBytes
    ensures r.None? <==> NoneApplies(rules, group, wild, CarriesMaxSize)
  {
    var rule := FindRule(rules, group, wild, CarriesMaxSize);
    if rule.Some? {
      return rule.value.maxArticleBytes;
    }
    return None;
  }

  // ---- Other lists of rules with the same choice ----

  lemma {:induction false} SomeFirstExact(rules: seq<Rule>, group: string, k: nat)
    requires k < |rules| && rules[k].group == Some(group)
    ensures exists i: nat :: FirstExact(rules, group, i)
  {
    if j: nat :| j < k && rules[j].group == Some(group) {
      SomeFirstExact(rules, group, j);
    } else {
      assert FirstExact(rules, group, k);
    }
  }

  /** The same rules in another order choose alike, if the exact rule that comes first stays
      first and candidates with the same key are the same. */
  lemma ReorderKeepsChoice(rules: seq<Rule>, other: seq<Rule>, group: string, wild: Matcher, carries: Rule -> bool,
                           r: Option<Rule>)
    requires forall r :: r in rules <==> r in other
    requires forall k: nat, l: nat | FirstExact(rules, group, k) && FirstExact(other, group, l) :: rules[k] == other[l]
    requires forall a, b | a in rules && b in rules && KeyOf(a) == KeyOf(b) ::
               Candidate(a, group, wild, carries) && Candidate(b, group, wild, carries) ==> a == b
    requires Chooses(rules, group, wild, carries, r)
    ensures Chooses(other, group, wild, carries, r)
  {
    var choice := ChoosesOne(other, group, wild, carries, r);
    SameExact(rules, other, group, carries);
    SameExact(other, rules, group, carries);
    hide KeyOf, Candidate, FirstExact, ExactCarries, Best;
    forall k | 0 <= k < |rules|
      ensures rules[k] in other
    {
      assert rules[k] in rules;
    }
    forall k | 0 <= k < |other|
      ensures other[k] in rules
    {
      assert other[k] in other;
    }
    if choice.Some? && r.Some? && !ExactCarries(rules, group, carries) {
      var i: nat :| Applies(rules, group, wild, carries, i) && rules[i] == r.value;
      var j: nat :| Applies(other, group, wild, carries, j) && other[j] == choice.value;
      BestIsByKey(rules, group, wild, carries, i);
      BestIsByKey(other, group, wild, carries, j);
      SameBest(rules, other, group, wild, carries, i, j);
    }
  }

  lemma SameBest(rules: seq<Rule>, other: seq<Rule>, group: string, wild: Matcher, carries: Rule -> bool, i: nat, j: nat)
    requires BestByKey(rules, group, wild, carries, i) && BestByKey(other, group, wild, carries, j)
    requires rules[i] in other && other[j] in rules
    ensures KeyOf(rules[i]) == KeyOf(other[j])
  {
    hide KeyOf;
    var k :| 0 <= k < |other| && other[k] == rules[i];
    var l :| 0 <= l < |rules| && rules[l] == other[j];
    assert !MoreSpecific(KeyOf(other[k]), KeyOf(other[j])) && !MoreSpecific(KeyOf(rules[l]), KeyOf(rules[i]));
  }

  lemma SameExact(rules: seq<Rule>, other: seq<Rule>, group: string, carries: Rule -> bool)
    requires forall r :: r in rules <==> r in other
    requires forall k: nat, l: nat | FirstExact(rules, group, k) && FirstExact(other, group, l) :: rules[k] == other[l]
    ensures ExactCarries(rules, group, carries) ==> ExactCarries(other, group, carries)
  {
    if ExactCarries(rules, group, carries) {
      var k: nat :| FirstExact(rules, group, k) && carries(rules[k]);
      assert rules[k] in other;
      var m :| 0 <= m < |other| && other[m] == rules[k];
      SomeFirstExact(other, group, m);
    }
  }

  /** Where the k-th rule is once another has been added. */
  function Moved(before: seq<Rule>, k: nat): nat { if k < |before| then k else k + 1 }

  function Back(before: seq<Rule>, l: nat): nat { if l <= |before| then l else l - 1 }

  lemma MovedRules(before: seq<Rule>, added: Rule, after: seq<Rule>)
    ensures var rules, more := before + after, before + [added] + after;
            |more| == |rules| + 1 && more[|before|] == added
            && (forall k: nat :: k < |rules| ==> more[Moved(before, k)] == rules[k])
            && (forall l: nat {:trigger more[l]} :: l < |more| && l != |before| ==>
                                   more[l] == rules[Back(before, l)] && Moved(before, Back(before, l)) == l)
  {
  }

  lemma ExactMoves(before: seq<Rule>, added: Rule, after: seq<Rule>, group: string, k: nat)
    requires added.group == Some(group) ==> exists k :: 0 <= k < |before| && before[k].group == Some(group)
    ensures FirstExact(before + after, group, k) <==> FirstExact(before + [added] + after, group, Moved(before, k))
    ensures !FirstExact(before + [added] + after, group, |before|)
  {
    var rules, more := before + after, before + [added] + after;
    MovedRules(before, added, after);
    if exists j :: 0 <= j < |before| && before[j].group == Some(group) {
      var j :| 0 <= j < |before| && before[j].group == Some(group);
      assert rules[j].group == Some(group) && more[j].group == Some(group);
    }
    if FirstExact(more, group, Moved(before, k)) {
      forall j: nat | j < k
        ensures rules[j].group != Some(group)
      {
        assert more[Moved(before, j)] == rules[j];
      }
    }
    if FirstExact(rules, group, k) {
      forall l: nat | l < Moved(before, k) && l != |before|
        ensures more[l].group != Some(group)
      {
        assert more[l] == rules[Back(before, l)];
      }
    }
  }

  lemma ExactCarriesMoves(before: seq<Rule>, added: Rule, after: seq<Rule>, group: string, carries: Rule -> bool)
    requires added.group == Some(group) ==> exists k :: 0 <= k < |before| && before[k].group == Some(group)
    ensures ExactCarries(before + [added] + after, group, carries) <==> ExactCarries(before + after, group, carries)
  {
    var rules, more := before + after, before + [added] + after;
    MovedRules(before, added, after);
    if k: nat :| FirstExact(rules, group, k) && carries(rules[k]) {
      ExactMoves(before, added, after, group, k);
    }
    if l: nat :| FirstExact(more, group, l) && carries(more[l]) {
      ExactMoves(before, added, after, group, 0);
      var k := Back(before, l);
      ExactMoves(before, added, after, group, k);
    }
  }

  lemma BestMoves(before: seq<Rule>, added: Rule, after: seq<Rule>, group: string, wild: Matcher,
                  carries: Rule -> bool, i: nat)
    requires Candidate(added, group, wild, carries) ==>
               exists r :: r in before + after && Candidate(r, group, wild, carries) && MoreSpecific(KeyOf(r), KeyOf(added))
    requires Best(before + after, group, wild, carries, i)
    ensures Best(before + [added] + after, group, wild, carries, Moved(before, i))
  {
    hide Candidate, KeyOf, Best;
    var rules, more := before + after, before + [added] + after;
    MovedRules(before, added, after);
    BestIsByKey(rules, group, wild, carries, i);
    BestIsByKey(more, group, wild, carries, Moved(before, i));
    forall l: nat | l < |more| && Candidate(more[l], group, wild, carries)
      ensures !MoreSpecific(KeyOf(more[l]), KeyOf(rules[i]))
      ensures l < Moved(before, i) ==> MoreSpecific(KeyOf(rules[i]), KeyOf(more[l]))
    {
      if l == |before| {
        var r :| r in rules && Candidate(r, group, wild, carries) && MoreSpecific(KeyOf(r), KeyOf(added));
        var k :| 0 <= k < |rules| && rules[k] == r;
      } else {
        var k := Back(before, l);
      }
    }
  }

  /** An added rule that is no candidate, or is less specific than one, or comes after another
      rule for the very group, changes nothing. */
  lemma AddedRuleIgnored(before: seq<Rule>, added: Rule, after: seq<Rule>, group: string, wild: Matcher,
                         carries: Rule -> bool, r: Option<Rule>)
    requires added.group == Some(group) ==> exists k :: 0 <= k < |before| && before[k].group == Some(group)
    requires Candidate(added, group, wild, carries) ==>
               exists r :: r in before + after && Candidate(r, group, wild, carries) && MoreSpecific(KeyOf(r), KeyOf(added))
    requires Chooses(before + after, group, wild, carries, r)
    ensures Chooses(before + [added] + after, group, wild, carries, r)
  {
    hide Candidate, KeyOf;
    MovedRules(before, added, after);
    ExactCarriesMoves(before, added, after, group, carries);
    if r.Some? {
      var i: nat :| Applies(before + after, group, wild, carries, i) && (before + after)[i] == r.value;
      if ExactCarries(before + after, group, carries) {
        ExactMoves(before, added, after, group, i);
      } else {
        BestMoves(before, added, after, group, wild, carries, i);
      }
      assert Applies(before + [added] + after, group, wild, carries, Moved(before, i));
    }
  }
}
