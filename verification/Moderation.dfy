/** Approval of postings to moderated groups (src/filters/moderation.rs): Approved
    values and X-PGP-Sig values are paired by their position. */
module Moderation {
  import opened Text
  import opened Wire
  import opened Store

  /** What the filter asks the storage, the authentication backend and the signature check. */
  datatype Policy = Policy(
    moderated: string -> bool,
    moderates: (string, string) -> bool,
    verifies: (Message, string, string, string, string) -> bool)

  datatype Verdict = Accepted | MissingApproval | MissingSignature | BadSignature | NotVerified

  /** All values of a header, in order. */
  function Values(headers: seq<Header>, name: string): seq<string> {
    if headers == [] then []
    else (if EqIgnoreCase(headers[0].name, name) then [headers[0].value] else []) + Values(headers[1..], name)
  }

  function Approvals(article: Message): seq<string> { Values(article.headers, "Approved") }

  function Signatures(article: Message): seq<string> { Values(article.headers, "X-PGP-Sig") }

  function WordEnd(s: string): (n: nat)
    ensures n <= |s| && (n < |s| ==> IsWhitespace(s[n]))
    ensures forall c :: c in s[..n] ==> !IsWhitespace(c)
    ensures s != "" && !IsWhitespace(s[0]) ==> n > 0
  {
    if s == "" || IsWhitespace(s[0]) then 0
    else
      var n := 1 + WordEnd(s[1..]);
      assert s[..n] == [s[0]] + s[1..][..n - 1];
      n
  }

  predicate IsWord(w: string) { w != "" && forall c :: c in w ==> !IsWhitespace(c) }

  /** The words of a text, separated by white space. */
  function Words(s: string): (words: seq<string>)
    ensures forall w :: w in words ==> IsWord(w)
    decreases |s|
  {
    if s == "" then []
    else if IsWhitespace(s[0]) then Words(s[1..])
    else [s[..WordEnd(s)]] + Words(s[WordEnd(s)..])
  }

  lemma {:induction false} WordEndAt(w: string, rest: string)
    requires IsWord(w) && (rest == "" || IsWhitespace(rest[0]))
    ensures WordEnd(w + rest) == |w|
  {
    var s := w + rest;
    assert s[0] == w[0] && w[0] in w;
    if |w| > 1 {
      assert s[1..] == w[1..] + rest;
      WordEndAt(w[1..], rest);
    } else {
      assert s[1..] == rest;
    }
  }

  /** The lines handed on are the signature's words, whatever separated them. */
  lemma {:induction false} WordsOfLines(words: seq<string>)
    requires forall w :: w in words ==> IsWord(w)
    ensures Words(Joined(words, '\n')) == words
  {
    if words != [] {
      var rest := if |words| == 1 then "" else "\n" + Joined(words[1..], '\n');
      var s := words[0] + rest;
      assert s == Joined(words, '\n');
      WordEndAt(words[0], rest);
      assert s[0] == words[0][0] && words[0][0] in words[0];
      assert s[..|words[0]|] == words[0] && s[|words[0]|..] == rest;
      if |words| > 1 {
        assert rest[1..] == Joined(words[1..], '\n');
        WordsOfLines(words[1..]);
      }
    }
  }

  predicate IsGap(gap: string) { gap != "" && AllWhitespace(gap) }

  /** The words with white space before, between and after them. */
  function Spaced(words: seq<string>, gaps: seq<string>): string
    requires |gaps| == |words| + 1
  {
    if words == [] then gaps[0] else gaps[0] + (words[0] + Spaced(words[1..], gaps[1..]))
  }

  lemma {:induction false} WordsAfter(gap: string, s: string)
    requires AllWhitespace(gap)
    ensures Words(gap + s) == Words(s)
  {
    if gap == "" {
      assert gap + s == s;
    } else {
      assert gap[0] in gap && (gap + s)[1..] == gap[1..] + s;
      WordsAfter(gap[1..], s);
    }
  }

  lemma WordFirst(word: string, rest: string)
    requires IsWord(word) && (rest == "" || IsWhitespace(rest[0]))
    ensures Words(word + rest) == [word] + Words(rest)
  {
    WordEndAt(word, rest);
    var s := word + rest;
    assert s[0] == word[0] && word[0] in word;
    assert s[..|word|] == word && s[|word|..] == rest;
  }

  /** Whatever the white space is. */
  lemma {:induction false} WordsSpaced(words: seq<string>, gaps: seq<string>)
    requires |gaps| == |words| + 1 && AllWhitespace(gaps[0]) && AllWhitespace(gaps[|words|])
    requires forall k :: 0 < k < |words| ==> IsGap(gaps[k])
    requires forall w :: w in words ==> IsWord(w)
    ensures Words(Spaced(words, gaps)) == words
    decreases |words|
  {
    if words == [] {
      WordsAfter(gaps[0], "");
      assert gaps[0] + "" == gaps[0];
    } else {
      var rest := Spaced(words[1..], gaps[1..]);
      WordsAfter(gaps[0], words[0] + rest);
      assert forall i :: 0 <= i < |gaps[1]| ==> gaps[1][i] in gaps[1];
      WordFirst(words[0], rest);
      if |words| > 1 {
        WordsSpaced(words[1..], gaps[1..]);
      } else {
        WordsSpaced([], gaps[1..]);
      }
    }
  }

  /** The article as one moderator signed it: with that approval alone. */
  function SignedBy(article: Message, approved: string): Message {
    Message(WithoutName(article.headers, "Approved") + [Header("Approved", approved)], article.body)
  }

  function CheckSignature(article: Message, policy: Policy, approved: string, sig: string): Verdict {
    var words := Words(sig);
    if |words| < 2 then BadSignature
    else if policy.verifies(SignedBy(article, approved), approved, words[0], words[1], Joined(words[2..], '\n')) then Accepted
    else NotVerified
  }

  /** The first word of a signature is the version and the second names the signed headers; the
      others are the signature, one to a line. Without the first two it is malformed. */
  lemma SignatureExactly(article: Message, policy: Policy, approved: string, words: seq<string>, gaps: seq<string>)
    requires |gaps| == |words| + 1 && AllWhitespace(gaps[0]) && AllWhitespace(gaps[|words|])
    requires forall k :: 0 < k < |words| ==> IsGap(gaps[k])
    requires forall w :: w in words ==> IsWord(w)
    ensures var verdict := CheckSignature(article, policy, approved, Spaced(words, gaps));
            (verdict == BadSignature <==> |words| < 2)
            && forall version, signed, lines | words == [version, signed] + lines ::
                 var signedArticle := Message(WithoutName(article.headers, "Approved") + [Header("Approved", approved)],
                                              article.body);
                 (verdict == Accepted
                  <==> policy.verifies(signedArticle, approved, version, signed, Joined(lines, '\n')))
                 && (verdict == NotVerified <==> verdict != Accepted)
  {
    WordsSpaced(words, gaps);
    hide Words, Spaced;
    forall version, signed, lines | words == [version, signed] + lines
      ensures words[0] == version && words[1] == signed && words[2..] == lines
    {
    }
  }

  /** The i-th approval is by a moderator of the group. */
  predicate Moderates(article: Message, policy: Policy, group: string, i: nat) {
    i < |Approvals(article)| && policy.moderates(Approvals(article)[i], group)
  }

  /** And the i-th signature stands for it. */
  predicate Signed(article: Message, policy: Policy, i: nat)
    requires i < |Approvals(article)|
  {
    i < |Signatures(article)| && CheckSignature(article, policy, Approvals(article)[i], Signatures(article)[i]) == Accepted
  }

  /** What a moderated group asks for. */
  ghost predicate ApprovedFor(article: Message, policy: Policy, group: string) {
    (exists i: nat :: Moderates(article, policy, group, i))
    && forall i: nat :: Moderates(article, policy, group, i) ==> Signed(article, policy, i)
  }

  /** The verdict names the first thing that is missing. */
  ghost predicate Explains(article: Message, policy: Policy, group: string, v: Verdict) {
    match v
    case Accepted => ApprovedFor(article, policy, group)
    case MissingApproval => forall i: nat :: !Moderates(article, policy, group, i)
    case MissingSignature => exists i: nat :: Moderates(article, policy, group, i) && i >= |Signatures(article)|
    case _ =>
      (forall i: nat :: Moderates(article, policy, group, i) ==> i < |Signatures(article)|)
      && exists i: nat :: Moderates(article, policy, group, i)
                          && CheckSignature(article, policy, Approvals(article)[i], Signatures(article)[i]) == v
                          && forall j: nat :: j < i && Moderates(article, policy, group, j) ==> Signed(article, policy, j)
  }

  /** Only an approved article can be explained as accepted, and it only so. */
  lemma AcceptedExactly(article: Message, policy: Policy, group: string, v: Verdict)
    requires Explains(article, policy, group, v)
    ensures v == Accepted <==> ApprovedFor(article, policy, group)
  {
    hide CheckSignature, Approvals, Signatures;
    if v == MissingSignature {
      var i: nat :| Moderates(article, policy, group, i) && i >= |Signatures(article)|;
      assert !Signed(article, policy, i);
    } else if v == BadSignature || v == NotVerified {
      var i: nat :| Moderates(article, policy, group, i) && i < |Signatures(article)|
                    && CheckSignature(article, policy, Approvals(article)[i], Signatures(article)[i]) == v;
      assert !Signed(article, policy, i);
    }
  }

  /** The positions of the group's moderators among the first `n` approvals. */
  function Positions(article: Message, policy: Policy, group: string, n: nat): (at: seq<nat>)
    requires n <= |Approvals(article)|
    ensures forall i: nat :: i in at <==> i < n && Moderates(article, policy, group, i)
    ensures forall j, k :: 0 <= j < k < |at| ==> at[j] < at[k]
  {
    if n == 0 then []
    else
      var at := Positions(article, policy, group, n - 1);
      assert forall k :: 0 <= k < |at| ==> at[k] in at;
      if Moderates(article, policy, group, n - 1) then at + [n - 1] else at
  }

  /** The two lists follow the positions, the signatures as far as there are any. */
  ghost predicate Aligned(article: Message, at: seq<nat>, moderators: seq<string>, signatures: seq<string>) {
    |at| == |moderators| && |signatures| <= |at|
    && (forall k :: 0 <= k < |at| ==> at[k] < |Approvals(article)| && moderators[k] == Approvals(article)[at[k]])
    && (forall k :: 0 <= k < |signatures| ==> at[k] < |Signatures(article)| && signatures[k] == Signatures(article)[at[k]])
    && (forall k :: |signatures| <= k < |at| ==> at[k] >= |Signatures(article)|)
    && (forall j, k :: 0 <= j < k < |at| ==> at[j] < at[k])
  }

  lemma AlignedStep(article: Message, at: seq<nat>, moderators: seq<string>, signatures: seq<string>, i: nat)
    requires Aligned(article, at, moderators, signatures) && i < |Approvals(article)| && forall j :: j in at ==> j < i
    ensures Aligned(article, at + [i], moderators + [Approvals(article)[i]],
                    if i < |Signatures(article)| then signatures + [Signatures(article)[i]] else signatures)
  {
    hide Approvals, Signatures;
    assert forall k :: 0 <= k < |at| ==> at[k] in at;
    assert |signatures| < |at| ==> at[|signatures|] < i;
  }

  method PairUp(article: Message, policy: Policy, group: string)
      returns (groupModerators: seq<string>, groupSignatures: seq<string>)
    ensures Aligned(article, Positions(article, policy, group, |Approvals(article)|), groupModerators, groupSignatures)
  {
    var approvedValues, sigHeaders := Approvals(article), Signatures(article);
    assert Aligned(article, Positions(article, policy, group, 0), [], []);
    hide Aligned, Approvals, Signatures;
    groupModerators, groupSignatures := [], [];
    for i := 0 to |approvedValues|
      invariant Aligned(article, Positions(article, policy, group, i), groupModerators, groupSignatures)
    {
      if policy.moderates(approvedValues[i], group) {
        AlignedStep(article, Positions(article, policy, group, i), groupModerators, groupSignatures, i);
        groupModerators := groupModerators + [approvedValues[i]];
        if i < |sigHeaders| {
          groupSignatures := groupSignatures + [sigHeaders[i]];
        }
      }
    }
  }

  method VerifyPairs(article: Message, policy: Policy, groupModerators: seq<string>, groupSignatures: seq<string>)
      returns (r: Verdict, failed: nat)
    requires |groupModerators| == |groupSignatures|
    ensures failed <= |groupModerators|
    ensures forall k :: 0 <= k < failed ==> CheckSignature(article, policy, groupModerators[k], groupSignatures[k]) == Accepted
    ensures r == if failed < |groupModerators|
                 then CheckSignature(article, policy, groupModerators[failed], groupSignatures[failed]) else Accepted
    ensures failed < |groupModerators| ==> r == BadSignature || r == NotVerified
  {
    for i := 0 to |groupModerators|
      invariant forall k :: 0 <= k < i ==> CheckSignature(article, policy, groupModerators[k], groupSignatures[k]) == Accepted
    {
      var words := Words(groupSignatures[i]);
      if |words| < 2 {
        return BadSignature, i;
      }
      var tmp := SignedBy(article, groupModerators[i]);
      if !policy.verifies(tmp, groupModerators[i], words[0], words[1], Joined(words[2..], '\n')) {
        return NotVerified, i;
      }
    }
    return Accepted, |groupModerators|;
  }

  lemma AlignedVerdict(article: Message, policy: Policy, group: string, at: seq<nat>,
                       moderators: seq<string>, signatures: seq<string>, failed: nat, r: Verdict)
    requires Aligned(article, at, moderators, signatures) && 0 < |moderators| == |signatures| && failed <= |at|
    requires forall i: nat :: i in at <==> Moderates(article, policy, group, i)
    requires forall k :: 0 <= k < failed ==> CheckSignature(article, policy, moderators[k], signatures[k]) == Accepted
    requires r == if failed < |at| then CheckSignature(article, policy, moderators[failed], signatures[failed]) else Accepted
    requires failed < |at| ==> r == BadSignature || r == NotVerified
    ensures Explains(article, policy, group, r)
  {
    hide CheckSignature, Approvals, Signatures, Moderates;
    assert forall k :: 0 <= k < failed ==> Signed(article, policy, at[k]);
    forall i: nat | Moderates(article, policy, group, i)
      ensures i < |Signatures(article)|
      ensures failed == |at| || i < at[failed] ==> Signed(article, policy, i)
    {
      assert i in at;
    }
    assert at[0] in at && (failed < |at| ==> at[failed] in at);
  }

  method ValidateGroup(article: Message, policy: Policy, group: string) returns (r: Verdict)
    ensures Explains(article, policy, group, r)
  {
    hide Words, Joined, Values, CheckSignature;
    var groupModerators, groupSignatures := PairUp(article, policy, group);
    ghost var at := Positions(article, policy, group, |Approvals(article)|);
    assert forall k :: 0 <= k < |at| ==> at[k] in at;
    if groupModerators == [] {
      return MissingApproval;
    }
    if |groupSignatures| < |groupModerators| {
      assert Moderates(article, policy, group, at[|groupSignatures|]);
      return MissingSignature;
    }
    var failed;
    r, failed := VerifyPairs(article, policy, groupModerators, groupSignatures);
    AlignedVerdict(article, policy, group, at, groupModerators, groupSignatures, failed, r);
  }

  /** The filter: accepts exactly the articles that every moderated group they list has approved,
      and otherwise says what the first other group misses. */
  method Validate(article: Message, policy: Policy) returns (r: Verdict)
    ensures r == Accepted <==> forall g :: g in Newsgroups(article) && policy.moderated(g) ==> ApprovedFor(article, policy, g)
    ensures r != Accepted ==>
              exists k :: 0 <= k < |Newsgroups(article)|
                          && Explains(article, policy, Newsgroups(article)[k], r)
                          && policy.moderated(Newsgroups(article)[k])
                          && forall j :: 0 <= j < k && policy.moderated(Newsgroups(article)[j]) ==>
                                           ApprovedFor(article, policy, Newsgroups(article)[j])
  {
    var newsgroups := Newsgroups(article);
    for k := 0 to |newsgroups|
      invariant forall j :: 0 <= j < k && policy.moderated(newsgroups[j]) ==> ApprovedFor(article, policy, newsgroups[j])
    {
      if policy.moderated(newsgroups[k]) {
        var v := ValidateGroup(article, policy, newsgroups[k]);
        AcceptedExactly(article, policy, newsgroups[k], v);
        if v != Accepted {
          return v;
        }
      }
    }
    return Accepted;
  }

  // ---- The headers that are read ----

  lemma {:induction false} ValuesConcat(a: seq<Header>, b: seq<Header>, name: string)
    ensures Values(a + b, name) == Values(a, name) + Values(b, name)
  {
    if a == [] {
      assert a + b == b;
    } else {
      hide EqIgnoreCase;
      assert (a + b)[1..] == a[1..] + b;
      ValuesConcat(a[1..], b, name);
    }
  }

  lemma {:induction false} WithoutNameConcat(a: seq<Header>, b: seq<Header>, name: string)
    ensures WithoutName(a + b, name) == WithoutName(a, name) + WithoutName(b, name)
  {
    if a == [] {
      assert a + b == b;
    } else {
      hide EqIgnoreCase;
      assert (a + b)[1..] == a[1..] + b;
      WithoutNameConcat(a[1..], b, name);
    }
  }

  /** The positions of the headers with that name, or of the others. */
  function PositionsOf(headers: seq<Header>, name: string, named: bool): (at: seq<nat>)
    ensures forall i: nat :: i in at <==> i < |headers| && (EqIgnoreCase(headers[i].name, name) <==> named)
    ensures forall j, k :: 0 <= j < k < |at| ==> at[j] < at[k]
  {
    if headers == [] then []
    else
      var last := |headers| - 1;
      var at := PositionsOf(headers[..last], name, named);
      assert forall k :: 0 <= k < |at| ==> at[k] in at;
      if EqIgnoreCase(headers[last].name, name) <==> named then at + [last] else at
  }

  lemma ValuesLast(headers: seq<Header>, name: string)
    requires headers != []
    ensures var last := |headers| - 1;
            Values(headers, name)
            == Values(headers[..last], name) + if EqIgnoreCase(headers[last].name, name) then [headers[last].value] else []
  {
    hide EqIgnoreCase;
    var last := |headers| - 1;
    assert headers == headers[..last] + [headers[last]];
    ValuesConcat(headers[..last], [headers[last]], name);
    assert [headers[last]][1..] == [];
  }

  lemma OthersLast(headers: seq<Header>, name: string)
    requires headers != []
    ensures var last := |headers| - 1;
            WithoutName(headers, name)
            == WithoutName(headers[..last], name) + if EqIgnoreCase(headers[last].name, name) then [] else [headers[last]]
  {
    hide EqIgnoreCase;
    var last := |headers| - 1;
    assert headers == headers[..last] + [headers[last]];
    WithoutNameConcat(headers[..last], [headers[last]], name);
    assert [headers[last]][1..] == [];
  }

  /** All headers of a name give their values, in order. */
  lemma {:induction false} ValuesExactly(headers: seq<Header>, name: string)
    ensures var at := PositionsOf(headers, name, true);
            |Values(headers, name)| == |at|
            && forall k :: 0 <= k < |at| ==> at[k] in at && Values(headers, name)[k] == headers[at[k]].value
  {
    if headers != [] {
      hide EqIgnoreCase, Values;
      ValuesLast(headers, name);
      ValuesExactly(headers[..|headers| - 1], name);
    }
  }

  /** All others are left, in order. */
  lemma {:induction false} OthersExactly(headers: seq<Header>, name: string)
    ensures var at := PositionsOf(headers, name, false);
            |WithoutName(headers, name)| == |at|
            && forall k :: 0 <= k < |at| ==> at[k] in at && WithoutName(headers, name)[k] == headers[at[k]]
  {
    if headers != [] {
      hide EqIgnoreCase, WithoutName;
      OthersLast(headers, name);
      OthersExactly(headers[..|headers| - 1], name);
    }
  }

  // ---- Approvals by others ----

  /** An approval that moderates none of the listed groups changes nothing when it comes last. */
  lemma StrayApproval(article: Message, policy: Policy, stray: string, group: string)
    requires !policy.moderates(stray, group)
    ensures var more := article.(headers := article.headers + [Header("Approved", stray)]);
            ApprovedFor(more, policy, group) <==> ApprovedFor(article, policy, group)
  {
    var one := [Header("Approved", stray)];
    var more := article.(headers := article.headers + one);
    ValuesConcat(article.headers, one, "Approved");
    ValuesConcat(article.headers, one, "X-PGP-Sig");
    WithoutNameConcat(article.headers, one, "Approved");
    assert one[1..] == [];
    assert |Lower("Approved")| != |Lower("X-PGP-Sig")|;
    assert Approvals(more) == Approvals(article) + [stray];
    assert Signatures(more) == Signatures(article);
    forall approved
      ensures SignedBy(more, approved) == SignedBy(article, approved)
    {
      assert WithoutName(more.headers, "Approved") == WithoutName(article.headers, "Approved");
    }
    forall i: nat
      ensures Moderates(more, policy, group, i) <==> Moderates(article, policy, group, i)
      ensures Moderates(article, policy, group, i) ==> (Signed(more, policy, i) <==> Signed(article, policy, i))
    {
    }
  }
}
