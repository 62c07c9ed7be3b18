/** Choosing DNS clients, and asking them one after another or all at once. */
module DnsQuery {
  import opened ByteSeq

  datatype Client = Client(policyID: int, finalQuery: bool, skipFallback: bool, isFake: bool)

  datatype Error = EmptyResponse | RecordNotFound | Failure(code: int)

  /** What one client brings back. */
  datatype Outcome = Outcome(ips: seq<int>, ttl: int, err: Option<Error>)

  type Answer = (seq<int>, int)

  predicate Success(o: Outcome) {
    o.err.None? && |o.ips| > 0
  }

  /** No addresses together with an error; an empty answer may come without one. */
  predicate Coherent(o: Outcome) {
    |o.ips| > 0 ==> o.err.None?
  }

  function ErrorOf(o: Outcome): Error {
    if o.err.Some? then o.err.value else EmptyResponse
  }

  // ---------------------------------------------------------------------------------------------
  // Which clients, in which order

  function Dedup(s: seq<nat>): seq<nat> {
    if s == [] then []
    else
      var front := Dedup(s[..|s| - 1]);
      if s[|s| - 1] in front then front else front + [s[|s| - 1]]
  }

  /** The first `n` clients that may serve as fallback and are not in `used`. */
  function Fallbacks(clients: seq<Client>, used: seq<nat>, n: nat): seq<nat>
    requires n <= |clients|
  {
    if n == 0 then []
    else
      Fallbacks(clients, used, n - 1) + (if n - 1 in used || clients[n - 1].skipFallback then [] else [n - 1])
  }

  predicate Distinct(s: seq<nat>) {
    forall i, j :: 0 <= i < j < |s| ==> s[i] != s[j]
  }

  predicate InRange(s: seq<nat>, clients: seq<Client>) {
    forall i :: 0 <= i < |s| ==> s[i] < |clients|
  }

  /** A list up to its first final client. */
  function UntilFinal(s: seq<nat>, clients: seq<Client>): (r: seq<nat>)
    requires InRange(s, clients)
    ensures InRange(r, clients)
    ensures forall x :: x in r ==> x in s
  {
    if s == [] then []
    else
      var front := UntilFinal(s[..|s| - 1], clients);
      if front != [] && clients[front[|front| - 1]].finalQuery then front else front + [s[|s| - 1]]
  }

  /** None of the listed clients is final. */
  predicate NoFinal(s: seq<nat>, clients: seq<Client>)
    requires InRange(s, clients)
  {
    forall i :: 0 <= i < |s| ==> !clients[s[i]].finalQuery
  }

  lemma {:induction false} UntilFinalCuts(s: seq<nat>, k: nat, clients: seq<Client>)
    requires InRange(s, clients) && k < |s|
    requires NoFinal(s[..k], clients) && clients[s[k]].finalQuery
    ensures UntilFinal(s, clients) == s[..k + 1]
  {
    if k == |s| - 1 {
      UntilFinalKeeps(s[..k], clients);
      assert s == s[..k] + [s[k]];
    } else {
      assert s[..|s| - 1][..k] == s[..k] && s[..|s| - 1][..k + 1] == s[..k + 1];
      UntilFinalCuts(s[..|s| - 1], k, clients);
    }
  }

  lemma {:induction false} UntilFinalKeeps(s: seq<nat>, clients: seq<Client>)
    requires InRange(s, clients) && NoFinal(s, clients)
    ensures UntilFinal(s, clients) == s
  {
    if s != [] {
      UntilFinalKeeps(s[..|s| - 1], clients);
      assert s == s[..|s| - 1] + [s[|s| - 1]];
    }
  }

  lemma {:induction false} DedupInRange(s: seq<nat>, clients: seq<Client>)
    requires InRange(s, clients)
    ensures InRange(Dedup(s), clients)
    ensures forall x :: x in Dedup(s) <==> x in s
    ensures Distinct(Dedup(s))
  {
    if s != [] {
      var front := s[..|s| - 1];
      DedupInRange(front, clients);
      assert s == front + [s[|s| - 1]];
    }
  }

  lemma DedupSome(s: seq<nat>, clients: seq<Client>)
    requires InRange(s, clients)
    ensures s != [] ==> Dedup(s) != []
  {
    DedupInRange(s, clients);
    assert s != [] ==> s[0] in s;
  }

  lemma DedupNothing()
    ensures Dedup([]) == []
  {
  }

  lemma DedupNext(s: seq<nat>, i: nat)
    requires i < |s|
    ensures Dedup(s[..i + 1]) == if s[i] in Dedup(s[..i]) then Dedup(s[..i]) else Dedup(s[..i]) + [s[i]]
  {
    assert s[..i + 1][..i] == s[..i];
  }

  lemma {:induction false} DedupPrefix(s: seq<nat>, k: nat)
    requires k <= |s|
    ensures Dedup(s[..k]) <= Dedup(s)
  {
    if k < |s| {
      DedupPrefix(s[..|s| - 1], k);
      assert s[..|s| - 1][..k] == s[..k];
    } else {
      assert s[..k] == s;
    }
  }

  lemma {:induction false} FallbacksInRange(clients: seq<Client>, used: seq<nat>, n: nat)
    requires n <= |clients|
    ensures InRange(Fallbacks(clients, used, n), clients)
    ensures forall x: nat :: x in Fallbacks(clients, used, n) <==> x < n && x !in used && !clients[x].skipFallback
    ensures forall i, j :: 0 <= i < j < |Fallbacks(clients, used, n)| ==>
              Fallbacks(clients, used, n)[i] < Fallbacks(clients, used, n)[j]
  {
    if n > 0 {
      FallbacksInRange(clients, used, n - 1);
      var f := Fallbacks(clients, used, n - 1);
      AllBelow(f, n - 1);
    }
  }

  lemma AllBelow(s: seq<nat>, n: nat)
    requires forall x :: x in s ==> x < n
    ensures forall i :: 0 <= i < |s| ==> s[i] < n
  {
    assert forall i :: 0 <= i < |s| ==> s[i] in s;
  }

  lemma {:induction false} FallbacksPrefix(clients: seq<Client>, used: seq<nat>, k: nat, n: nat)
    requires k <= n <= |clients|
    ensures Fallbacks(clients, used, k) <= Fallbacks(clients, used, n)
  {
    if k < n {
      FallbacksPrefix(clients, used, k, n - 1);
    }
  }

  /** Matched clients in order of their rules, then the fallbacks in order of configuration. */
  function Candidates(clients: seq<Client>, matched: seq<nat>, fallback: bool): seq<nat> {
    Dedup(matched) + (if fallback then Fallbacks(clients, Dedup(matched), |clients|) else [])
  }

  lemma CandidatesInRange(clients: seq<Client>, matched: seq<nat>, fallback: bool)
    requires InRange(matched, clients)
    ensures InRange(Candidates(clients, matched, fallback), clients)
    ensures Distinct(Candidates(clients, matched, fallback))
  {
    DedupInRange(matched, clients);
    FallbacksInRange(clients, Dedup(matched), |clients|);
    var d, f := Dedup(matched), Fallbacks(clients, Dedup(matched), |clients|);
    assert forall i :: 0 <= i < |f| ==> f[i] in f;
    assert forall i :: 0 <= i < |d| ==> d[i] in d;
  }

  /** The clients to ask: the candidates up to the first final one, or the first client of all. */
  function Sorted(clients: seq<Client>, matched: seq<nat>, fallback: bool): seq<nat>
    requires InRange(matched, clients)
  {
    CandidatesInRange(clients, matched, fallback);
    var s := UntilFinal(Candidates(clients, matched, fallback), clients);
    if s == [] && |clients| > 0 then [0] else s
  }

  /** The matched clients, up to a final one. */
  method MatchedClients(clients: seq<Client>, matched: seq<nat>)
    returns (order: seq<nat>, clientUsed: seq<bool>, stopped: bool)
    requires InRange(matched, clients)
    ensures InRange(order, clients) && order <= Dedup(matched)
    ensures !stopped ==> order == Dedup(matched) && NoFinal(order, clients)
    ensures stopped ==> order != [] && NoFinal(order[..|order| - 1], clients) && clients[order[|order| - 1]].finalQuery
    ensures |clientUsed| == |clients| && forall k: nat :: k < |clients| ==> (clientUsed[k] <==> k in order)
  {
    hide Dedup;
    DedupNothing();
    order, stopped := [], false;
    clientUsed := seq(|clients|, _ => false);
    for i := 0 to |matched|
      invariant InRange(order, clients) && NoFinal(order, clients)
      invariant order == Dedup(matched[..i])
      invariant |clientUsed| == |clients|
      invariant forall k: nat :: k < |clients| ==> (clientUsed[k] <==> k in order)
    {
      var idx := matched[i];
      DedupNext(matched, i);
      if clientUsed[idx] {
        continue;
      }
      clientUsed := clientUsed[idx := true];
      order := order + [idx];
      if clients[idx].finalQuery {
        DedupPrefix(matched, i + 1);
        stopped := true;
        return;
      }
    }
    assert matched[..|matched|] == matched;
  }

  /** The fallback clients behind the matched ones, up to a final one. */
  method AddFallbacks(clients: seq<Client>, head: seq<nat>, used: seq<bool>) returns (order: seq<nat>, stopped: bool)
    requires InRange(head, clients) && NoFinal(head, clients)
    requires |used| == |clients| && forall k: nat :: k < |clients| ==> (used[k] <==> k in head)
    ensures InRange(order, clients) && order <= head + Fallbacks(clients, head, |clients|)
    ensures !stopped ==> order == head + Fallbacks(clients, head, |clients|) && NoFinal(order, clients)
    ensures stopped ==> order != [] && NoFinal(order[..|order| - 1], clients) && clients[order[|order| - 1]].finalQuery
  {
    order, stopped := head, false;
    var clientUsed := used;
    for idx := 0 to |clients|
      invariant InRange(order, clients) && NoFinal(order, clients)
      invariant order == head + Fallbacks(clients, head, idx)
      invariant |clientUsed| == |clients|
      invariant forall k: nat :: idx <= k < |clients| ==> (clientUsed[k] <==> k in head)
    {
      if clientUsed[idx] || clients[idx].skipFallback {
        continue;
      }
      clientUsed := clientUsed[idx := true];
      order := order + [idx];
      if clients[idx].finalQuery {
        FallbacksPrefix(clients, head, idx + 1, |clients|);
        stopped := true;
        return;
      }
    }
  }

  method SortClients(clients: seq<Client>, matched: seq<nat>, disableFallback: bool, disableFallbackIfMatch: bool)
    returns (order: seq<nat>)
    requires InRange(matched, clients)
    ensures order == Sorted(clients, matched, !(disableFallback || (disableFallbackIfMatch && matched != [])))
  {
    hide UntilFinal, Dedup, Fallbacks, NoFinal;
    var fallback := !(disableFallback || (disableFallbackIfMatch && matched != []));
    ghost var all := Candidates(clients, matched, fallback);
    CandidatesInRange(clients, matched, fallback);
    var used, stopped;
    order, used, stopped := MatchedClients(clients, matched);
    if !stopped && fallback {
      order, stopped := AddFallbacks(clients, order, used);
    }
    if stopped {
      StopsAt(all, order, clients);
      return;
    }
    assert order == all;
    UntilFinalKeeps(all, clients);
    if |order| == 0 && |clients| > 0 {
      order := [0];
    }
  }

  lemma StopsAt(all: seq<nat>, order: seq<nat>, clients: seq<Client>)
    requires InRange(all, clients) && order != [] && order <= all
    requires InRange(order, clients)
    requires NoFinal(order[..|order| - 1], clients) && clients[order[|order| - 1]].finalQuery
    ensures UntilFinal(all, clients) == order
  {
    assert all[..|order| - 1] == order[..|order| - 1];
    UntilFinalCuts(all, |order| - 1, clients);
  }

  /** A final client is asked last, no client is asked twice, and someone is asked if there is anyone. */
  lemma SortedAsks(clients: seq<Client>, matched: seq<nat>, fallback: bool)
    requires InRange(matched, clients)
    ensures var s := Sorted(clients, matched, fallback);
            && (s == [] <==> clients == [])
            && InRange(s, clients) && Distinct(s)
            && (forall i, k :: 0 <= i < k < |s| ==> Precedes(matched, s[i], s[k]))
            && (s != [] ==> NoFinal(s[..|s| - 1], clients))
  {
    hide UntilFinal, Candidates, NoFinal, Distinct, Precedes;
    CandidatesInRange(clients, matched, fallback);
    CandidatesOrder(clients, matched, fallback);
    var all := Candidates(clients, matched, fallback);
    if all != [] {
      SomeoneToAsk(all, clients);
    }
    CutAtFinal(all, clients);
    OneIsFine(clients);
  }

  /**
   * Nobody is forgotten: whoever has matched, and as a fallback whoever does not refuse to be one, is asked, unless a
   * final client that comes before has ended the list. And nobody else is asked, but for the first client when there is
   * no candidate at all.
   */
  lemma SortedIsComplete(clients: seq<Client>, matched: seq<nat>, fallback: bool, y: nat)
    requires InRange(matched, clients) && y < |clients|
    ensures var s := Sorted(clients, matched, fallback);
            var candidate := y in matched || (fallback && !clients[y].skipFallback);
            && (candidate && y !in s ==>
                  s != [] && clients[s[|s| - 1]].finalQuery && Precedes(matched, s[|s| - 1], y))
            && (y in s && !candidate ==>
                  && s == [0] && matched == []
                  && (fallback ==> forall k :: 0 <= k < |clients| ==> clients[k].skipFallback))
  {
    hide UntilFinal, Dedup, Fallbacks, Precedes, NoFinal;
    var all, d := Candidates(clients, matched, fallback), Dedup(matched);
    CandidatesInRange(clients, matched, fallback);
    CandidatesOrder(clients, matched, fallback);
    DedupInRange(matched, clients);
    FallbacksInRange(clients, d, |clients|);
    var f := Fallbacks(clients, d, |clients|);
    assert y in all <==> y in d || (fallback && y in f);
    if y in all && y !in UntilFinal(all, clients) {
      CutOff(all, clients, y);
    }
    DedupSome(matched, clients);
    if all == [] {
      if fallback {
        forall k: nat | k < |clients|
          ensures clients[k].skipFallback
        {
          assert k !in f;
        }
      }
    } else {
      CutAtFinal(all, clients);
    }
  }

  /** What a final client keeps from being asked comes behind it. */
  lemma CutOff(s: seq<nat>, clients: seq<Client>, y: nat)
    requires InRange(s, clients) && Distinct(s) && y in s && y !in UntilFinal(s, clients)
    ensures var r := UntilFinal(s, clients);
            && r != [] && clients[r[|r| - 1]].finalQuery
            && exists i, k :: 0 <= i < k < |s| && s[i] == r[|r| - 1] && s[k] == y
  {
    hide NoFinal;
    if NoFinal(s, clients) {
      UntilFinalKeeps(s, clients);
    } else {
      var k := FirstFinalAt(s, clients);
      UntilFinalCuts(s, k, clients);
      var j :| 0 <= j < |s| && s[j] == y;
      forall i | 0 <= i <= k
        ensures s[i] in s[..k + 1]
      {
        assert s[..k + 1][i] == s[i];
      }
      assert j > k;
    }
  }

  lemma FirstFinalAt(s: seq<nat>, clients: seq<Client>) returns (k: nat)
    requires InRange(s, clients) && !NoFinal(s, clients)
    ensures k < |s| && NoFinal(s[..k], clients) && clients[s[k]].finalQuery
  {
    k := 0;
    while !clients[s[k]].finalQuery
      invariant k < |s| && NoFinal(s[..k], clients)
      decreases |s| - k
    {
      if k + 1 == |s| {
        assert s[..|s|] == s;
      }
      k := k + 1;
    }
  }

  /** Among the matches `x` comes before `y`, which need not be there; or both are fallbacks in configured order. */
  ghost predicate Precedes(matched: seq<nat>, x: nat, y: nat) {
    || (exists p :: 0 <= p < |matched| && matched[p] == x && y !in matched[..p])
    || (x !in matched && y !in matched && x < y)
  }

  lemma {:induction false} DedupPlace(s: seq<nat>, clients: seq<Client>, i: nat) returns (p: nat)
    requires InRange(s, clients) && i < |Dedup(s)|
    ensures p < |s| && s[p] == Dedup(s)[i] && forall y :: y in s[..p] ==> y in Dedup(s)[..i]
  {
    var front := s[..|s| - 1];
    if i < |Dedup(front)| {
      p := DedupPlace(front, clients, i);
      assert front[..p] == s[..p] && Dedup(front)[..i] == Dedup(s)[..i];
    } else {
      DedupInRange(front, clients);
      p := |s| - 1;
      assert Dedup(s)[..i] == Dedup(front);
    }
  }

  lemma MatchedPrecedes(clients: seq<Client>, matched: seq<nat>, i: nat, y: nat)
    requires InRange(matched, clients) && i < |Dedup(matched)|
    requires y !in Dedup(matched)[..i] && y != Dedup(matched)[i]
    ensures Precedes(matched, Dedup(matched)[i], y)
  {
    hide Dedup;
    var p := DedupPlace(matched, clients, i);
  }

  lemma CandidatesOrder(clients: seq<Client>, matched: seq<nat>, fallback: bool)
    requires InRange(matched, clients)
    ensures var all := Candidates(clients, matched, fallback);
            forall i, k :: 0 <= i < k < |all| ==> Precedes(matched, all[i], all[k])
  {
    hide Dedup, Fallbacks, Precedes;
    var all, d := Candidates(clients, matched, fallback), Dedup(matched);
    CandidatesInRange(clients, matched, fallback);
    DedupInRange(matched, clients);
    FallbacksInRange(clients, d, |clients|);
    var f := Fallbacks(clients, d, |clients|);
    forall i, k | 0 <= i < k < |all|
      ensures Precedes(matched, all[i], all[k])
    {
      if i < |d| {
        forall j | 0 <= j <= i
          ensures d[j] != all[k]
        {
          assert all[j] == d[j];
        }
        MatchedPrecedes(clients, matched, i, all[k]);
      } else {
        assert all[i] == f[i - |d|] && all[k] == f[k - |d|];
        FallbackPrecedes(matched, all[i], all[k]);
      }
    }
  }

  lemma FallbackPrecedes(matched: seq<nat>, x: nat, y: nat)
    requires x !in matched && y !in matched && x < y
    ensures Precedes(matched, x, y)
  {
  }

  lemma SomeoneToAsk(s: seq<nat>, clients: seq<Client>)
    requires InRange(s, clients) && s != []
    ensures clients != []
  {
    assert s[0] < |clients|;
  }

  lemma OneIsFine(clients: seq<Client>)
    ensures Distinct([0]) && NoFinal([0][..0], clients)
  {
  }

  lemma CutAtFinal(s: seq<nat>, clients: seq<Client>)
    requires InRange(s, clients) && Distinct(s)
    ensures var r := UntilFinal(s, clients);
            && (r == [] <==> s == []) && Distinct(r) && r <= s
            && (r != [] ==> NoFinal(r[..|r| - 1], clients))
  {
    if exists k :: 0 <= k < |s| && clients[s[k]].finalQuery {
      var k :| 0 <= k < |s| && clients[s[k]].finalQuery;
      FirstFinal(s, k, clients);
    } else {
      UntilFinalKeeps(s, clients);
    }
  }

  lemma {:induction false} FirstFinal(s: seq<nat>, k: nat, clients: seq<Client>)
    requires InRange(s, clients) && k < |s| && clients[s[k]].finalQuery
    ensures var r := UntilFinal(s, clients);
            && r != [] && r <= s && NoFinal(r[..|r| - 1], clients)
  {
    if exists j :: 0 <= j < k && clients[s[j]].finalQuery {
      var j :| 0 <= j < k && clients[s[j]].finalQuery;
      FirstFinal(s, j, clients);
    } else {
      UntilFinalCuts(s, k, clients);
    }
  }

  // ---------------------------------------------------------------------------------------------
  // Asking them

  /** A client that is not asked counts as one that answered nothing. */
  function Effective(clients: seq<Client>, outcomes: seq<Outcome>, fakeEnable: bool): (r: seq<Outcome>)
    requires |outcomes| == |clients|
    ensures |r| == |clients|
  {
    seq(|clients|, i requires 0 <= i < |clients| =>
      if !fakeEnable && clients[i].isFake then Outcome([], 0, Some(EmptyResponse)) else outcomes[i])
  }

  /** The errors of a serial query: those of the clients that were asked. */
  function AskedErrors(clients: seq<Client>, outcomes: seq<Outcome>, fakeEnable: bool, n: nat): seq<Error>
    requires n <= |clients| == |outcomes|
  {
    if n == 0 then []
    else
      AskedErrors(clients, outcomes, fakeEnable, n - 1)
      + (if !fakeEnable && clients[n - 1].isFake then [] else [ErrorOf(outcomes[n - 1])])
  }

  /** What a query without an answer fails with: an empty response, one error for all, or all the errors. */
  datatype QueryError = NoAnswer | Returning(error: Error) | Various(errors: seq<Error>)

  /** A server without the record does not count unless there is nothing else. */
  ghost predicate IsMerged(errs: seq<Error>, r: QueryError) {
    match r
    case NoAnswer => IsNoAnswer(errs)
    case Returning(error) =>
      error in errs && error != EmptyResponse && forall e :: e in errs ==> e == RecordNotFound || e == error
    case Various(all) =>
      all == errs && exists e, f :: e in errs && f in errs && e != f && RecordNotFound != e && RecordNotFound != f
  }

  method MergeQueryErrors(errs: seq<Error>) returns (r: QueryError)
    ensures IsMerged(errs, r)
  {
    if |errs| == 0 {
      return NoAnswer;
    }
    var noRNF: Option<Error> := None;
    for i := 0 to |errs|
      invariant noRNF.None? ==> forall k :: 0 <= k < i ==> errs[k] == RecordNotFound
      invariant noRNF.Some? ==> noRNF.value in errs && noRNF.value != RecordNotFound
      invariant noRNF.Some? ==> forall k :: 0 <= k < i ==> errs[k] == RecordNotFound || errs[k] == noRNF.value
    {
      var err := errs[i];
      if err == RecordNotFound {
        continue;
      } else if noRNF.None? {
        noRNF := Some(err);
      } else if err != noRNF.value {
        assert err in errs && noRNF.value in errs;
        return Various(errs);
      }
    }
    if noRNF == Some(EmptyResponse) {
      return NoAnswer;
    }
    if noRNF.None? {
      assert errs[0] == RecordNotFound;
      return Returning(RecordNotFound);
    }
    return Returning(noRNF.value);
  }

  ghost predicate NoSuccess(eff: seq<Outcome>, lo: int, hi: int) {
    forall i :: 0 <= lo <= i < hi <= |eff| ==> !Success(eff[i])
  }

  /** The serial query looks at the addresses only: it returns the first that there are. */
  ghost predicate SerialAnswer(eff: seq<Outcome>, j: nat) {
    j < |eff| && |eff[j].ips| > 0 && NoAddresses(eff, j)
  }

  predicate NoAddresses(eff: seq<Outcome>, n: nat) {
    forall i :: 0 <= i < n && i < |eff| ==> eff[i].ips == []
  }

  ghost predicate IsAnswerOf(answer: Answer, eff: seq<Outcome>, j: nat) {
    j < |eff| && answer == (eff[j].ips, eff[j].ttl)
  }

  method SerialQuery(clients: seq<Client>, outcomes: seq<Outcome>, fakeEnable: bool)
    returns (answer: Option<Answer>, failure: QueryError)
    requires |outcomes| == |clients|
    ensures var eff := Effective(clients, outcomes, fakeEnable);
            && (answer.Some? ==> exists j: nat :: SerialAnswer(eff, j) && IsAnswerOf(answer.value, eff, j))
            && (answer.None? ==>
                  NoAddresses(eff, |eff|) && IsMerged(AskedErrors(clients, outcomes, fakeEnable, |clients|), failure))
  {
    hide IsMerged;
    var errs: seq<Error> := [];
    ghost var eff := Effective(clients, outcomes, fakeEnable);
    for i := 0 to |clients|
      invariant NoAddresses(eff, i)
      invariant errs == AskedErrors(clients, outcomes, fakeEnable, i)
    {
      if !fakeEnable && clients[i].isFake {
        continue;
      }
      if |outcomes[i].ips| > 0 {
        answer := Some((outcomes[i].ips, outcomes[i].ttl));
        failure := NoAnswer;
        assert SerialAnswer(eff, i) && IsAnswerOf(answer.value, eff, i);
        return;
      }
      errs := errs + [ErrorOf(outcomes[i])];
    }
    failure := MergeQueryErrors(errs);
    answer := None;
  }

  /** Neighbours with the same policy race each other. */
  datatype Group = Group(start: int, end: int)

  /** The start of the run of equal policies that client `k` belongs to. */
  function RunStart(clients: seq<Client>, k: nat): (s: nat)
    requires k < |clients|
    ensures s <= k
  {
    if k == 0 || clients[k - 1].policyID != clients[k].policyID then k else RunStart(clients, k - 1)
  }

  /** The groups cut the clients into the maximal runs of equal policies. */
  ghost predicate Grouped(clients: seq<Client>, groups: seq<Group>, groupOf: seq<nat>, upTo: int) {
    && |groupOf| == |clients|
    && (forall g :: 0 <= g < |groups| ==> 0 <= groups[g].start <= groups[g].end < upTo <= |clients|)
    && (groups != [] ==> groups[0].start == 0 && groups[|groups| - 1].end == upTo - 1)
    && (groups == [] ==> upTo == 0)
    && (forall g :: 0 < g < |groups| ==> groups[g].start == groups[g - 1].end + 1)
    && (forall k :: 0 <= k < upTo ==> groupOf[k] < |groups| && groups[groupOf[k]].start <= k <= groups[groupOf[k]].end)
    && (forall k: nat :: k < upTo ==> groups[groupOf[k]].start == RunStart(clients, k))
  }

  lemma {:induction false} RunStartOf(clients: seq<Client>, s: nat, k: nat)
    requires s <= k < |clients|
    requires s == 0 || clients[s - 1].policyID != clients[s].policyID
    requires forall i :: s < i <= k ==> clients[i - 1].policyID == clients[i].policyID
    ensures RunStart(clients, k) == s
  {
    if k > s {
      RunStartOf(clients, s, k - 1);
    }
  }

  /** Closes the group that runs from `s` to `e`. */
  method CloseGroup(clients: seq<Client>, groups: seq<Group>, groupOf: seq<nat>, s: nat, e: nat)
    returns (groups': seq<Group>, groupOf': seq<nat>)
    requires Grouped(clients, groups, groupOf, s) && s <= e < |clients|
    requires s == 0 || clients[s - 1].policyID != clients[s].policyID
    requires forall i :: s < i <= e ==> clients[i - 1].policyID == clients[i].policyID
    ensures Grouped(clients, groups', groupOf', e + 1)
  {
    groupOf' := groupOf;
    for k := s to e + 1
      invariant |groupOf'| == |clients|
      invariant forall i :: 0 <= i < s ==> groupOf'[i] == groupOf[i]
      invariant forall i :: s <= i < k ==> groupOf'[i] == |groups|
    {
      groupOf' := groupOf'[k := |groups|];
    }
    groups' := groups + [Group(s, e)];
    forall k: nat | s <= k < e + 1
      ensures RunStart(clients, k) == s
    {
      RunStartOf(clients, s, k);
    }
  }

  method MakeGroups(clients: seq<Client>) returns (groups: seq<Group>, groupOf: seq<nat>)
    ensures Grouped(clients, groups, groupOf, |clients|)
  {
    var n := |clients|;
    if n == 0 {
      return [], [];
    }
    groups := [];
    groupOf := seq(n, _ => 0);
    var s, e := 0, 0;
    for i := 1 to n
      invariant 0 <= s <= e == i - 1
      invariant Grouped(clients, groups, groupOf, s)
      invariant s == 0 || clients[s - 1].policyID != clients[s].policyID
      invariant forall k :: s < k <= e ==> clients[k - 1].policyID == clients[k].policyID
    {
      if clients[i - 1].policyID == clients[i].policyID {
        e := i;
      } else {
        groups, groupOf := CloseGroup(clients, groups, groupOf, s, e);
        s, e := i, i;
      }
    }
    groups, groupOf := CloseGroup(clients, groups, groupOf, s, e);
  }

  /** The parallel query returns a success of the first policy group that has one. */
  ghost predicate ParallelAnswer(clients: seq<Client>, eff: seq<Outcome>, j: nat) {
    |eff| == |clients| && j < |eff| && Success(eff[j]) && NoSuccess(eff, 0, RunStart(clients, j))
  }

  /** Client `j` can be returned once the results of `came` are in: all groups before its own are, and so is its own. */
  ghost predicate Decided(clients: seq<Client>, eff: seq<Outcome>, came: seq<nat>, j: nat) {
    ParallelAnswer(clients, eff, j) && j in came && forall k: nat :: k < RunStart(clients, j) ==> k in came
  }

  /** The race ends with arrival `n`, the first that decides it, and returns the first client that can be returned. */
  ghost predicate Wins(clients: seq<Client>, eff: seq<Outcome>, arrival: seq<nat>, n: nat, j: nat) {
    && n <= |arrival| && Decided(clients, eff, arrival[..n], j)
    && (forall i: nat :: i < j ==> !Decided(clients, eff, arrival[..n], i))
    && (forall m: nat, i: nat :: m < n ==> !Decided(clients, eff, arrival[..m], i))
  }

  /** Every client arrives, once. */
  predicate IsOrder(arrival: seq<nat>, clients: seq<Client>) {
    |arrival| == |clients| && Distinct(arrival) && InRange(arrival, clients)
  }

  function ErrorsOf(eff: seq<Outcome>, n: nat): seq<Error>
    requires n <= |eff|
  {
    if n == 0 then [] else ErrorsOf(eff, n - 1) + [ErrorOf(eff[n - 1])]
  }

  /** Clients of a range that have not answered yet. */
  function Missing(results: seq<Option<Outcome>>, lo: int, hi: int): nat
    requires 0 <= lo <= hi <= |results|
    decreases hi - lo
  {
    if lo == hi then 0 else Missing(results, lo, hi - 1) + (if results[hi - 1].None? then 1 else 0)
  }

  lemma {:induction false} MissingAfter(results: seq<Option<Outcome>>, lo: int, hi: int, k: int, o: Outcome)
    requires 0 <= lo <= hi <= |results| && 0 <= k < |results| && results[k].None?
    ensures Missing(results[k := Some(o)], lo, hi) == Missing(results, lo, hi) - (if lo <= k < hi then 1 else 0)
    decreases hi - lo
  {
    if lo < hi {
      MissingAfter(results, lo, hi - 1, k, o);
    }
  }

  lemma {:induction false} MissingNone(results: seq<Option<Outcome>>, lo: int, hi: int)
    requires 0 <= lo <= hi <= |results|
    ensures Missing(results, lo, hi) == 0 <==> forall i :: lo <= i < hi ==> results[i].Some?
    decreases hi - lo
  {
    if lo < hi {
      MissingNone(results, lo, hi - 1);
    }
  }

  lemma {:induction false} MissingAll(results: seq<Option<Outcome>>, lo: int, hi: int)
    requires 0 <= lo <= hi <= |results|
    requires forall i :: lo <= i < hi ==> results[i].None?
    ensures Missing(results, lo, hi) == hi - lo
    decreases hi - lo
  {
    if lo < hi {
      MissingAll(results, lo, hi - 1);
    }
  }

  /** What has arrived, and how many of each group have not. */
  ghost predicate Arrived(eff: seq<Outcome>, groups: seq<Group>, arrival: seq<nat>, n: nat,
                          results: seq<Option<Outcome>>, pending: seq<int>) {
    && n <= |arrival| && |results| == |eff| && |pending| == |groups|
    && (forall k :: 0 <= k < |arrival| ==> arrival[k] < |eff|)
    && (forall k :: 0 <= k < |eff| ==> results[k].Some? ==> results[k].value == eff[k])
    && (forall k: nat :: k < |eff| ==> (results[k].Some? <==> k in arrival[..n]))
    && (forall k :: n <= k < |arrival| ==> results[arrival[k]].None?)
    && (forall g :: 0 <= g < |groups| ==>
          && 0 <= groups[g].start <= groups[g].end < |eff|
          && pending[g] == Missing(results, groups[g].start, groups[g].end + 1))
  }

  /** The next result is taken from the channel. */
  method TakeResult(clients: seq<Client>, ghost eff: seq<Outcome>, groups: seq<Group>, groupOf: seq<nat>,
                    arrival: seq<nat>, n: nat, result: Outcome, results: seq<Option<Outcome>>, pending: seq<int>)
    returns (results': seq<Option<Outcome>>, pending': seq<int>)
    requires Grouped(clients, groups, groupOf, |clients|) && |eff| == |clients|
    requires Arrived(eff, groups, arrival, n, results, pending) && n < |arrival| && Distinct(arrival)
    requires result == eff[arrival[n]]
    ensures Arrived(eff, groups, arrival, n + 1, results', pending')
    ensures results' == results[arrival[n] := Some(result)]
  {
    var index := arrival[n];
    assert arrival[..n + 1] == arrival[..n] + [index];
    results' := results[index := Some(result)];
    var gi := groupOf[index];
    pending' := pending[gi := pending[gi] - 1];
    forall g | 0 <= g < |groups|
      ensures pending'[g] == Missing(results', groups[g].start, groups[g].end + 1)
    {
      MissingAfter(results, groups[g].start, groups[g].end + 1, index, result);
      GroupsApart(clients, groups, groupOf, gi, g);
    }
  }

  lemma {:induction false} GroupsApart(clients: seq<Client>, groups: seq<Group>, groupOf: seq<nat>, g: nat, h: nat)
    requires Grouped(clients, groups, groupOf, |clients|)
    requires g < |groups| && h < |groups|
    ensures g < h ==> groups[g].end < groups[h].start
    ensures h < g ==> groups[h].end < groups[g].start
    decreases if g < h then h - g else g - h
  {
    if g + 1 < h {
      GroupsApart(clients, groups, groupOf, g, h - 1);
    } else if h + 1 < g {
      GroupsApart(clients, groups, groupOf, g - 1, h);
    }
  }

  /** A success among the results of a group that are in. */
  method FindSuccess(ghost eff: seq<Outcome>, results: seq<Option<Outcome>>, g: Group) returns (found: Option<nat>)
    requires 0 <= g.start <= g.end < |results| == |eff|
    requires forall k :: 0 <= k < |eff| ==> results[k].Some? ==> results[k].value == eff[k]
    ensures found.Some? ==> g.start <= found.value <= g.end && results[found.value].Some? && Success(eff[found.value])
    ensures found.Some? ==> forall j :: g.start <= j < found.value && results[j].Some? ==> !Success(eff[j])
    ensures found.None? ==> forall j :: g.start <= j <= g.end && results[j].Some? ==> !Success(eff[j])
  {
    for j := g.start to g.end + 1
      invariant forall i :: g.start <= i < j && results[i].Some? ==> !Success(eff[i])
    {
      if results[j].Some? && Success(results[j].value) {
        return Some(j);
      }
    }
    return None;
  }

  /** The errors of a group in which everyone failed. */
  method GroupErrors(ghost eff: seq<Outcome>, results: seq<Option<Outcome>>, g: Group, errs: seq<Error>)
    returns (errs': seq<Error>)
    requires 0 <= g.start <= g.end < |results| == |eff|
    requires forall j :: g.start <= j <= g.end ==> results[j] == Some(eff[j])
    requires errs == ErrorsOf(eff, g.start)
    ensures errs' == ErrorsOf(eff, g.end + 1)
  {
    errs' := errs;
    for j := g.start to g.end + 1
      invariant errs' == ErrorsOf(eff, j)
    {
      errs' := errs' + [ErrorOf(results[j].value)];
    }
  }

  /** Where group `g` starts, or the end of the clients. */
  function GroupStart(clients: seq<Client>, groups: seq<Group>, g: nat): int {
    if g < |groups| then groups[g].start else |clients|
  }

  lemma NextGroupStarts(clients: seq<Client>, groups: seq<Group>, groupOf: seq<nat>, g: nat)
    requires Grouped(clients, groups, groupOf, |clients|) && g < |groups|
    ensures GroupStart(clients, groups, g + 1) == groups[g].end + 1
  {
  }

  lemma GroupRunStart(clients: seq<Client>, groups: seq<Group>, groupOf: seq<nat>, g: nat, k: nat)
    requires Grouped(clients, groups, groupOf, |clients|) && g < |groups|
    requires groups[g].start <= k <= groups[g].end
    ensures k < |clients| && RunStart(clients, k) == groups[g].start
  {
    GroupsApart(clients, groups, groupOf, g, groupOf[k]);
  }

  /** Everyone before the next group has answered and failed, and the errors so far are theirs. */
  ghost predicate Settled(clients: seq<Client>, eff: seq<Outcome>, results: seq<Option<Outcome>>, groups: seq<Group>,
                          nextGroup: nat, errs: seq<Error>) {
    && |results| == |eff| == |clients| && nextGroup <= |groups|
    && 0 <= GroupStart(clients, groups, nextGroup) <= |eff|
    && NoSuccess(eff, 0, GroupStart(clients, groups, nextGroup))
    && (forall k :: 0 <= k < GroupStart(clients, groups, nextGroup) ==> results[k].Some?)
    && errs == ErrorsOf(eff, GroupStart(clients, groups, nextGroup))
  }

  /** The groups that are decided: returns a success, or stops at the first group that is still incomplete. */
  method Advance(clients: seq<Client>, ghost eff: seq<Outcome>, groups: seq<Group>, ghost groupOf: seq<nat>,
                 ghost arrival: seq<nat>, ghost n: nat, results: seq<Option<Outcome>>, pending: seq<int>,
                 nextGroup: nat, errs: seq<Error>)
    returns (winner: Option<nat>, nextGroup': nat, errs': seq<Error>)
    requires Grouped(clients, groups, groupOf, |clients|)
    requires Arrived(eff, groups, arrival, n, results, pending)
    requires Settled(clients, eff, results, groups, nextGroup, errs)
    ensures winner.Some? ==>
              && Decided(clients, eff, arrival[..n], winner.value) && results[winner.value] == Some(eff[winner.value])
              && forall i: nat :: i < winner.value ==> !Decided(clients, eff, arrival[..n], i)
    ensures winner.None? ==> forall i: nat :: !Decided(clients, eff, arrival[..n], i)
    ensures winner.None? ==> Settled(clients, eff, results, groups, nextGroup', errs')
    ensures winner.None? && nextGroup' < |groups| ==> pending[nextGroup'] > 0
  {
    hide Grouped, RunStart, Missing, Decided;
    nextGroup', errs' := nextGroup, errs;
    while nextGroup' < |groups|
      invariant Settled(clients, eff, results, groups, nextGroup', errs')
      decreases |groups| - nextGroup'
    {
      var g := groups[nextGroup'];
      var found := FindSuccess(eff, results, g);
      if found.Some? {
        FirstDecided(clients, eff, groups, groupOf, arrival, n, results, pending, nextGroup', errs', found.value);
        return found, nextGroup', errs';
      }
      if pending[nextGroup'] > 0 {
        StillOpen(clients, eff, groups, groupOf, arrival, n, results, pending, nextGroup', errs');
        return None, nextGroup', errs';
      }
      MissingNone(results, g.start, g.end + 1);
      errs' := GroupErrors(eff, results, g, errs');
      NextGroupStarts(clients, groups, groupOf, nextGroup');
      nextGroup' := nextGroup' + 1;
    }
    NothingLeft(clients, eff, arrival[..n]);
    return None, nextGroup', errs';
  }

  lemma NothingLeft(clients: seq<Client>, eff: seq<Outcome>, came: seq<nat>)
    requires NoSuccess(eff, 0, |eff|)
    ensures forall j: nat :: !Decided(clients, eff, came, j)
  {
  }

  /** The first success of the next group that is in decides the race. */
  lemma FirstDecided(clients: seq<Client>, eff: seq<Outcome>, groups: seq<Group>, groupOf: seq<nat>,
                     arrival: seq<nat>, n: nat, results: seq<Option<Outcome>>, pending: seq<int>, nextGroup: nat,
                     errs: seq<Error>, j: nat)
    requires Grouped(clients, groups, groupOf, |clients|)
    requires Arrived(eff, groups, arrival, n, results, pending)
    requires Settled(clients, eff, results, groups, nextGroup, errs) && nextGroup < |groups|
    requires groups[nextGroup].start <= j <= groups[nextGroup].end && results[j].Some? && Success(eff[j])
    requires forall i :: groups[nextGroup].start <= i < j && results[i].Some? ==> !Success(eff[i])
    ensures Decided(clients, eff, arrival[..n], j)
    ensures forall i: nat :: i < j ==> !Decided(clients, eff, arrival[..n], i)
  {
    hide Grouped, RunStart, ErrorsOf;
    GroupRunStart(clients, groups, groupOf, nextGroup, j);
  }

  /** An incomplete group without a success so far keeps the race open. */
  lemma StillOpen(clients: seq<Client>, eff: seq<Outcome>, groups: seq<Group>, groupOf: seq<nat>,
                  arrival: seq<nat>, n: nat, results: seq<Option<Outcome>>, pending: seq<int>, nextGroup: nat,
                  errs: seq<Error>)
    requires Grouped(clients, groups, groupOf, |clients|)
    requires Arrived(eff, groups, arrival, n, results, pending)
    requires Settled(clients, eff, results, groups, nextGroup, errs) && nextGroup < |groups| && pending[nextGroup] > 0
    requires forall i :: groups[nextGroup].start <= i <= groups[nextGroup].end && results[i].Some? ==> !Success(eff[i])
    ensures forall j: nat :: !Decided(clients, eff, arrival[..n], j)
  {
    hide RunStart, ErrorsOf;
    var g := groups[nextGroup];
    MissingNone(results, g.start, g.end + 1);
    forall j: nat
      ensures !Decided(clients, eff, arrival[..n], j)
    {
      if Decided(clients, eff, arrival[..n], j) {
        assert j > g.end;
        GroupsApart(clients, groups, groupOf, nextGroup, groupOf[j]);
        assert false;
      }
    }
  }

  /** Before anything has arrived every group waits for all its members. */
  method StartWaiting(clients: seq<Client>, ghost eff: seq<Outcome>, groups: seq<Group>, ghost groupOf: seq<nat>,
                      ghost arrival: seq<nat>)
    returns (results: seq<Option<Outcome>>, pending: seq<int>)
    requires Grouped(clients, groups, groupOf, |clients|) && |eff| == |clients|
    requires forall k :: 0 <= k < |arrival| ==> arrival[k] < |eff|
    ensures Arrived(eff, groups, arrival, 0, results, pending)
    ensures |results| == |clients| && Missing(results, 0, |results|) == |clients|
    ensures groups != [] ==> pending[0] > 0
  {
    hide Missing, RunStart;
    results := seq(|clients|, _ => None);
    pending := [];
    for gi := 0 to |groups|
      invariant |pending| == gi
      invariant forall g :: 0 <= g < gi ==> pending[g] == Missing(results, groups[g].start, groups[g].end + 1) > 0
    {
      MissingAll(results, groups[gi].start, groups[gi].end + 1);
      pending := pending + [groups[gi].end - groups[gi].start + 1];
    }
    MissingAll(results, 0, |clients|);
  }

  lemma NothingSettled(clients: seq<Client>, eff: seq<Outcome>, results: seq<Option<Outcome>>, groups: seq<Group>,
                       groupOf: seq<nat>)
    requires Grouped(clients, groups, groupOf, |clients|) && |results| == |eff| == |clients|
    ensures Settled(clients, eff, results, groups, 0, [])
  {
  }

  /** Once everything has arrived no group can be incomplete. */
  lemma AllDecided(clients: seq<Client>, eff: seq<Outcome>, groups: seq<Group>, arrival: seq<nat>, n: nat,
                   results: seq<Option<Outcome>>, pending: seq<int>, nextGroup: nat, errs: seq<Error>)
    requires Arrived(eff, groups, arrival, n, results, pending)
    requires Settled(clients, eff, results, groups, nextGroup, errs)
    requires Missing(results, 0, |eff|) == 0
    requires nextGroup < |groups| ==> pending[nextGroup] > 0
    ensures NoSuccess(eff, 0, |eff|) && errs == ErrorsOf(eff, |eff|)
  {
    MissingNone(results, 0, |eff|);
    forall g | 0 <= g < |groups|
      ensures pending[g] == 0
    {
      MissingNone(results, groups[g].start, groups[g].end + 1);
    }
  }

  /** All clients are asked at once; their results are looked at in the order of arrival. */
  method ParallelQuery(clients: seq<Client>, outcomes: seq<Outcome>, fakeEnable: bool, arrival: seq<nat>)
    returns (answer: Option<Answer>, failure: QueryError)
    requires |outcomes| == |clients| && IsOrder(arrival, clients)
    ensures var eff := Effective(clients, outcomes, fakeEnable);
            && (answer.Some? ==>
                  exists n: nat, j: nat :: Wins(clients, eff, arrival, n, j) && IsAnswerOf(answer.value, eff, j))
            && (answer.None? ==> NoSuccess(eff, 0, |eff|) && IsMerged(ErrorsOf(eff, |eff|), failure))
  {
    hide IsMerged, Effective, Missing, NoSuccess, ErrorsOf, RunStart, Distinct, Grouped, GroupStart;
    var eff := Effective(clients, outcomes, fakeEnable);
    var groups, groupOf := MakeGroups(clients);
    var results, pending := StartWaiting(clients, eff, groups, groupOf, arrival);
    var errs: seq<Error> := [];
    var nextGroup: nat := 0;
    NothingSettled(clients, eff, results, groups, groupOf);
    for n := 0 to |clients|
      invariant Arrived(eff, groups, arrival, n, results, pending)
      invariant Settled(clients, eff, results, groups, nextGroup, errs)
      invariant Missing(results, 0, |eff|) == |clients| - n
      invariant nextGroup < |groups| ==> pending[nextGroup] > 0
      invariant forall m: nat, i: nat :: m <= n ==> !Decided(clients, eff, arrival[..m], i)
    {
      var index := arrival[n];
      MissingAfter(results, 0, |eff|, index, eff[index]);
      results, pending := TakeResult(clients, eff, groups, groupOf, arrival, n, eff[index], results, pending);
      var found;
      found, nextGroup, errs := Advance(clients, eff, groups, groupOf, arrival, n + 1, results, pending, nextGroup,
                                        errs);
      if found.Some? {
        var r := results[found.value].value;
        answer, failure := Some((r.ips, r.ttl)), NoAnswer;
        assert Wins(clients, eff, arrival, n + 1, found.value) && IsAnswerOf(answer.value, eff, found.value);
        return;
      }
    }
    AllDecided(clients, eff, groups, arrival, |clients|, results, pending, nextGroup, errs);
    failure := MergeQueryErrors(errs);
    answer := None;
  }

  // ---------------------------------------------------------------------------------------------
  // The race against the queue

  lemma {:induction false} FirstSuccess(eff: seq<Outcome>, k: nat) returns (j: nat)
    requires k < |eff| && |eff[k].ips| > 0
    ensures j <= k && SerialAnswer(eff, j)
  {
    if i :| 0 <= i < k && |eff[i].ips| > 0 {
      j := FirstSuccess(eff, i);
    } else {
      j := k;
    }
  }

  ghost predicate AllCoherent(eff: seq<Outcome>) {
    forall i :: 0 <= i < |eff| ==> Coherent(eff[i])
  }

  /** A race has one end. */
  lemma OneWinner(clients: seq<Client>, eff: seq<Outcome>, arrival: seq<nat>, n: nat, j: nat, n': nat, j': nat)
    requires Wins(clients, eff, arrival, n, j) && Wins(clients, eff, arrival, n', j')
    ensures n == n' && j == j'
  {
  }

  /** The arrivals that let `j` be the first of its group, behind all groups before. */
  function InFavourOf(clients: seq<Client>, j: nat): (arrival: seq<nat>)
    requires j < |clients|
    ensures IsOrder(arrival, clients)
  {
    var s := RunStart(clients, j);
    seq(|clients|, k requires 0 <= k => if k == s then j else if k == j then s else k)
  }

  lemma FavouredPrefix(clients: seq<Client>, j: nat, came: seq<nat>)
    requires j < |clients| && came == InFavourOf(clients, j)[..RunStart(clients, j) + 1]
    ensures forall k: nat :: k in came <==> k < RunStart(clients, j) || k == j
    ensures forall k: nat :: k < RunStart(clients, j) ==> came[k] == k
  {
    var s := RunStart(clients, j);
    forall k: nat
      ensures k in came <==> k < s || k == j
    {
      if k < s {
        assert came[k] == k;
      } else {
        assert came[s] == j;
      }
    }
  }

  /** The answers of races are exactly the successes of the first policy group that has one. */
  lemma AnswersOfRaces(clients: seq<Client>, eff: seq<Outcome>, j: nat)
    requires |eff| == |clients|
    ensures ParallelAnswer(clients, eff, j) <==>
              exists arrival, n: nat :: IsOrder(arrival, clients) && Wins(clients, eff, arrival, n, j)
  {
    if ParallelAnswer(clients, eff, j) {
      var s, arrival := RunStart(clients, j), InFavourOf(clients, j);
      FavouredPrefix(clients, j, arrival[..s + 1]);
      forall m: nat, i: nat | m <= s + 1 && Decided(clients, eff, arrival[..m], i)
        ensures m == s + 1 && i == j
      {
        SameGroup(clients, eff, i, j);
      }
      assert Wins(clients, eff, arrival, s + 1, j);
    }
  }

  /** All answers that a race can have are in one group. */
  lemma SameGroup(clients: seq<Client>, eff: seq<Outcome>, i: nat, j: nat)
    requires ParallelAnswer(clients, eff, i) && ParallelAnswer(clients, eff, j)
    ensures RunStart(clients, i) == RunStart(clients, j)
  {
    if i < j {
      RunStartBetween(clients, i, j);
    } else {
      RunStartBetween(clients, j, i);
    }
  }

  /** Whatever the order of arrival, the race has an answer exactly when the serial query has one. */
  lemma RaceIffSerial(clients: seq<Client>, eff: seq<Outcome>)
    requires |eff| == |clients| && AllCoherent(eff)
    ensures (exists j: nat :: SerialAnswer(eff, j)) <==> (exists j: nat :: ParallelAnswer(clients, eff, j))
    ensures (exists j: nat :: SerialAnswer(eff, j)) <==> !NoSuccess(eff, 0, |eff|)
  {
    if !NoSuccess(eff, 0, |eff|) {
      var k :| 0 <= k < |eff| && Success(eff[k]);
      var j := FirstSuccess(eff, k);
      assert ParallelAnswer(clients, eff, j);
    }
  }

  /** The race and the serial query answer from the same policy group, and no race is ahead of the queue. */
  lemma RaceAgreesWithSerial(clients: seq<Client>, eff: seq<Outcome>, serial: nat, race: nat)
    requires AllCoherent(eff) && SerialAnswer(eff, serial) && ParallelAnswer(clients, eff, race)
    ensures RunStart(clients, serial) == RunStart(clients, race) <= serial <= race
  {
    assert Success(eff[serial]);
    RunStartBetween(clients, serial, race);
  }

  /** Every race ends as the queue does exactly if nobody else in the policy group of its answer has one. */
  lemma RaceIsSerialExactly(clients: seq<Client>, eff: seq<Outcome>, serial: nat)
    requires |eff| == |clients| && AllCoherent(eff) && SerialAnswer(eff, serial)
    ensures (forall race: nat :: ParallelAnswer(clients, eff, race) ==> race == serial) <==>
              (forall k: nat :: k < |clients| && RunStart(clients, k) == RunStart(clients, serial) && Success(eff[k])
                                ==> k == serial)
  {
    assert Success(eff[serial]);
    forall race: nat | ParallelAnswer(clients, eff, race)
      ensures RunStart(clients, race) == RunStart(clients, serial)
    {
      RaceAgreesWithSerial(clients, eff, serial, race);
    }
    forall k: nat | k < |clients| && RunStart(clients, k) == RunStart(clients, serial) && Success(eff[k])
      ensures ParallelAnswer(clients, eff, k)
    {
    }
  }

  /** Two clients of one policy that both have an answer: the queue takes the first, and a race may end with either. */
  lemma TwoAnswersInOneGroup()
    ensures var c := Client(7, false, false, false);
            var clients, eff := [c, c], [Outcome([1], 60, None), Outcome([2], 60, None)];
            && SerialAnswer(eff, 0) && ParallelAnswer(clients, eff, 0) && ParallelAnswer(clients, eff, 1)
  {
    var c := Client(7, false, false, false);
    assert RunStart([c, c], 0) == 0;
  }

  /** The errors of the queue are those of the clients that it asks; an empty answer counts as one. */
  lemma {:induction false} ErrorsOfAsked(clients: seq<Client>, outcomes: seq<Outcome>, fakeEnable: bool, n: nat,
                                         e: Error)
    requires n <= |clients| == |outcomes|
    ensures e in AskedErrors(clients, outcomes, fakeEnable, n) <==>
              exists k :: 0 <= k < n && (fakeEnable || !clients[k].isFake)
                          && (outcomes[k].err == Some(e) || (outcomes[k].err == None && e == EmptyResponse))
  {
    if n > 0 {
      ErrorsOfAsked(clients, outcomes, fakeEnable, n - 1, e);
    }
  }

  /** What errors are merged into is determined by them. */
  lemma OneMerge(errs: seq<Error>, r: QueryError, s: QueryError)
    requires IsMerged(errs, r) && IsMerged(errs, s)
    ensures r == s
  {
  }

  lemma TwoErrors(e: Error, f: Error)
    requires e != f && e != RecordNotFound && f != RecordNotFound
    ensures IsMerged([e, f], Various([e, f]))
  {
    var errs := [e, f];
    assert errs[0] == e && errs[1] == f;
    assert e in errs && f in errs;
  }

  /** Some failures and what they are merged into. */
  lemma MergedExamples(a: int, b: int)
    requires a != b
    ensures IsMerged([], NoAnswer) && IsMerged([RecordNotFound, EmptyResponse], NoAnswer)
    ensures IsMerged([RecordNotFound], Returning(RecordNotFound))
    ensures IsMerged([RecordNotFound, Failure(a), Failure(a)], Returning(Failure(a)))
    ensures IsMerged([Failure(a), EmptyResponse], Various([Failure(a), EmptyResponse]))
    ensures IsMerged([Failure(a), Failure(b)], Various([Failure(a), Failure(b)]))
  {
    TwoErrors(Failure(a), EmptyResponse);
    TwoErrors(Failure(a), Failure(b));
    assert [RecordNotFound, Failure(a), Failure(a)][1] == Failure(a);
    assert [RecordNotFound][0] == RecordNotFound && [RecordNotFound, EmptyResponse][1] == EmptyResponse;
  }

  /** A client that the queue skips and the race counts as an empty response. */
  ghost predicate SomeSkipped(clients: seq<Client>, fakeEnable: bool, n: nat)
    requires n <= |clients|
  {
    exists k :: 0 <= k < n && !fakeEnable && clients[k].isFake
  }

  lemma {:induction false} ErrorLists(clients: seq<Client>, outcomes: seq<Outcome>, fakeEnable: bool, n: nat)
    requires n <= |clients| == |outcomes|
    ensures var asked := AskedErrors(clients, outcomes, fakeEnable, n);
            var all := ErrorsOf(Effective(clients, outcomes, fakeEnable), n);
            && (forall e :: e in asked ==> e in all)
            && (forall e :: e in all ==> e in asked || e == EmptyResponse)
            && |asked| <= |all|
            && (if SomeSkipped(clients, fakeEnable, n) then EmptyResponse in all && |asked| < |all| else asked == all)
  {
    if n > 0 {
      ErrorLists(clients, outcomes, fakeEnable, n - 1);
      assert SomeSkipped(clients, fakeEnable, n) <==>
        SomeSkipped(clients, fakeEnable, n - 1) || (!fakeEnable && clients[n - 1].isFake);
    }
  }

  /** There are no errors, or an empty response and beside it only servers without the record. */
  ghost predicate IsNoAnswer(errs: seq<Error>) {
    errs == [] || (EmptyResponse in errs && forall e :: e in errs ==> e == RecordNotFound || e == EmptyResponse)
  }

  /**
   * Without an answer queue and race fail alike exactly if no client is skipped, or if those that are asked give no
   * errors, or an empty response and beside it only missing records.
   */
  lemma FailuresAgree(clients: seq<Client>, outcomes: seq<Outcome>, fakeEnable: bool, serial: QueryError,
                      race: QueryError)
    requires |clients| == |outcomes|
    requires IsMerged(AskedErrors(clients, outcomes, fakeEnable, |clients|), serial)
    requires IsMerged(ErrorsOf(Effective(clients, outcomes, fakeEnable), |clients|), race)
    ensures serial == race <==>
              !SomeSkipped(clients, fakeEnable, |clients|)
              || IsNoAnswer(AskedErrors(clients, outcomes, fakeEnable, |clients|))
  {
    hide AskedErrors, ErrorsOf, Effective, SomeSkipped;
    ErrorLists(clients, outcomes, fakeEnable, |clients|);
  }

  lemma {:induction false} RunStartBetween(clients: seq<Client>, i: nat, k: nat)
    requires k < |clients| && RunStart(clients, k) <= i <= k
    ensures RunStart(clients, i) == RunStart(clients, k)
  {
    if i < k {
      RunStartBetween(clients, i, k - 1);
    }
  }
}
