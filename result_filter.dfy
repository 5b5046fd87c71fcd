/**
 * The filter that `get_snippet` runs over the search results before it
 * fetches any article: results without a link are dropped, results whose
 * root domain is known are kept or dropped by the known verdict, and an
 * unknown domain is probed once through the cache, whose new verdict then
 * decides this result and every later one of the same domain.
 *
 * Run is the filter as a function of the results, the starting domain map
 * and the two outside collaborators; Session.FilterPaywalled is the loop
 * itself, proved to compute Run.
 */
module ResultFilter {
  import opened Wrappers
  import opened DomainKey
  import opened Accessibility

  /** One news search hit: its `link`, if it has one, and the rest of its
      fields, which the filter passes through untouched. */
  datatype SearchResult = SearchResult(link: Option<string>, fields: map<string, string>)

  /** `not url` is false: the result has a link and it is not empty. */
  predicate HasLink(r: SearchResult)
  {
    r.link.Some? && r.link.value != ""
  }

  /** The classification key of a result with a link. */
  function KeyOf(r: SearchResult, netlocOf: string -> string): string
    requires HasLink(r)
  {
    RootDomain(netlocOf(r.link.value))
  }

  /** The state of the filter after some prefix of the results: the results
      kept so far, the domain map, and the domains probed so far. */
  datatype Pass = Pass(kept: seq<SearchResult>, verdicts: map<string, bool>, probed: seq<string>)

  /** One iteration of the filter loop. */
  function Step(p: Pass, r: SearchResult, netlocOf: string -> string, probe: string -> ProbeResult): Pass
  {
    if !HasLink(r) then p
    else
      var key := KeyOf(r, netlocOf);
      if key in p.verdicts then
        if p.verdicts[key] then p.(kept := p.kept + [r]) else p
      else
        var v := Verdict(probe(r.link.value));
        Pass(if v then p.kept + [r] else p.kept, p.verdicts[key := v], p.probed + [key])
  }

  /** The whole filter: the loop's iterations in input order, starting from
      the domain map `known` with nothing kept and nothing probed. */
  function Run(results: seq<SearchResult>, known: map<string, bool>,
               netlocOf: string -> string, probe: string -> ProbeResult): Pass
    decreases |results|
  {
    if |results| == 0 then Pass([], known, [])
    else Step(Run(results[..|results| - 1], known, netlocOf, probe), results[|results| - 1], netlocOf, probe)
  }

  /** A result survives the filter given the final domain map: it has a link
      and its domain's verdict there is "accessible". */
  predicate Accepted(r: SearchResult, verdicts: map<string, bool>, netlocOf: string -> string)
  {
    HasLink(r) && KeyOf(r, netlocOf) in verdicts && verdicts[KeyOf(r, netlocOf)]
  }

  /** The results that the final verdicts accept, in input order: the
      specification of what the filter keeps, with no reference to how the
      verdicts were learnt. */
  function AcceptedOnly(results: seq<SearchResult>, verdicts: map<string, bool>,
                        netlocOf: string -> string): seq<SearchResult>
    decreases |results|
  {
    if |results| == 0 then []
    else
      var init := AcceptedOnly(results[..|results| - 1], verdicts, netlocOf);
      if Accepted(results[|results| - 1], verdicts, netlocOf) then init + [results[|results| - 1]] else init
  }

  /** `a` is `b` with some elements left out and the rest in their order. */
  ghost predicate IsSubsequence<T>(a: seq<T>, b: seq<T>)
    decreases |b|
  {
    if |a| == 0 then true
    else if |b| == 0 then false
    else
      || (a[|a| - 1] == b[|b| - 1] && IsSubsequence(a[..|a| - 1], b[..|b| - 1]))
      || IsSubsequence(a, b[..|b| - 1])
  }

  /** `m2` holds every entry of `m1` unchanged. */
  ghost predicate Extends(m2: map<string, bool>, m1: map<string, bool>)
  {
    forall k :: k in m1 ==> k in m2 && m2[k] == m1[k]
  }

  /** The root domains of the results that have a link. */
  ghost function LinkedKeys(results: seq<SearchResult>, netlocOf: string -> string): set<string>
  {
    set i | 0 <= i < |results| && HasLink(results[i]) :: KeyOf(results[i], netlocOf)
  }

  /** No value occurs twice. */
  ghost predicate Distinct<T>(s: seq<T>)
  {
    forall i, j :: 0 <= i < j < |s| ==> s[i] != s[j]
  }

  lemma LinkedKeysSnoc(results: seq<SearchResult>, netlocOf: string -> string)
    requires |results| > 0
    ensures var init, last := results[..|results| - 1], results[|results| - 1];
            LinkedKeys(results, netlocOf)
              == LinkedKeys(init, netlocOf) + (if HasLink(last) then {KeyOf(last, netlocOf)} else {})
  {
    var init, last := results[..|results| - 1], results[|results| - 1];
    var n := |results|;
    forall k | k in LinkedKeys(results, netlocOf)
      ensures k in LinkedKeys(init, netlocOf) + (if HasLink(last) then {KeyOf(last, netlocOf)} else {})
    {
      var i :| 0 <= i < n && HasLink(results[i]) && KeyOf(results[i], netlocOf) == k;
      if i < n - 1 {
        assert results[i] == init[i];
      }
    }
    forall k | k in LinkedKeys(init, netlocOf) ensures k in LinkedKeys(results, netlocOf) {
      var i :| 0 <= i < n - 1 && HasLink(init[i]) && KeyOf(init[i], netlocOf) == k;
      assert init[i] == results[i];
    }
  }

  /** What the cache looks like after the results with root domains
      `linked` went through the filter from the map `known`. */
  ghost predicate CacheInvariant(p: Pass, known: map<string, bool>, linked: set<string>)
  {
    && Extends(p.verdicts, known)
    && p.verdicts.Keys == known.Keys + linked
    && Distinct(p.probed)
    && (forall i :: 0 <= i < |p.probed| ==> p.probed[i] !in known)
    && (forall k :: k in p.verdicts && k !in known <==> k in p.probed)
  }

  lemma StepCache(q: Pass, r: SearchResult, known: map<string, bool>, linked: set<string>,
                  netlocOf: string -> string, probe: string -> ProbeResult)
    requires CacheInvariant(q, known, linked)
    ensures CacheInvariant(Step(q, r, netlocOf, probe), known,
                           linked + (if HasLink(r) then {KeyOf(r, netlocOf)} else {}))
  {
    if HasLink(r) && KeyOf(r, netlocOf) !in q.verdicts {
      var key := KeyOf(r, netlocOf);
      var p := Step(q, r, netlocOf, probe);
      assert key !in q.probed;
      assert p.probed == q.probed + [key];
      assert forall i :: 0 <= i < |q.probed| ==> p.probed[i] == q.probed[i];
    }
  }

  /** The domain map only grows: no verdict already known is changed or
      removed, the new keys are exactly the root domains of the linked
      results that were not known before, and the log of probes lists each
      of those new keys exactly once, in the order they were probed. So each
      domain is probed at most once in one pass, and never when the map
      already knew it. */
  lemma {:induction false} RunCache(results: seq<SearchResult>, known: map<string, bool>,
                                    netlocOf: string -> string, probe: string -> ProbeResult)
    ensures var p := Run(results, known, netlocOf, probe);
            && Extends(p.verdicts, known)
            && p.verdicts.Keys == known.Keys + LinkedKeys(results, netlocOf)
            && Distinct(p.probed)
            && (forall i :: 0 <= i < |p.probed| ==> p.probed[i] !in known)
            && (forall k :: k in p.verdicts && k !in known <==> k in p.probed)
    decreases |results|
  {
    if |results| == 0 {
      assert LinkedKeys(results, netlocOf) == {};
    } else {
      var init, last := results[..|results| - 1], results[|results| - 1];
      RunCache(init, known, netlocOf, probe);
      LinkedKeysSnoc(results, netlocOf);
      StepCache(Run(init, known, netlocOf, probe), last, known, LinkedKeys(init, netlocOf), netlocOf, probe);
    }
  }

  /** One iteration keeps its result exactly when the verdict it leaves
      behind for the result's domain accepts it, and changes no verdict it
      found. */
  lemma StepKeeps(q: Pass, r: SearchResult, netlocOf: string -> string, probe: string -> ProbeResult)
    ensures var p := Step(q, r, netlocOf, probe);
            && p.kept == q.kept + (if Accepted(r, p.verdicts, netlocOf) then [r] else [])
            && Extends(p.verdicts, q.verdicts)
  {
  }

  /** Each result is judged by the verdict that its domain has at the end of
      the pass: a verdict, once in the map, is never changed by later
      iterations, so the kept results are exactly the accepted ones. */
  lemma {:induction false} RunKeepsAccepted(results: seq<SearchResult>, known: map<string, bool>,
                                            netlocOf: string -> string, probe: string -> ProbeResult)
    ensures var p := Run(results, known, netlocOf, probe);
            p.kept == AcceptedOnly(results, p.verdicts, netlocOf)
    decreases |results|
  {
    if |results| > 0 {
      var init, last := results[..|results| - 1], results[|results| - 1];
      var q := Run(init, known, netlocOf, probe);
      var p := Run(results, known, netlocOf, probe);
      assert p == Step(q, last, netlocOf, probe);
      RunKeepsAccepted(init, known, netlocOf, probe);
      RunCache(init, known, netlocOf, probe);
      StepKeeps(q, last, netlocOf, probe);
      forall i | 0 <= i < |init| && HasLink(init[i]) ensures KeyOf(init[i], netlocOf) in q.verdicts {
        assert KeyOf(init[i], netlocOf) in LinkedKeys(init, netlocOf);
      }
      AcceptedOnlyStable(init, q.verdicts, p.verdicts, netlocOf);
      assert AcceptedOnly(results, p.verdicts, netlocOf)
          == AcceptedOnly(init, p.verdicts, netlocOf) + (if Accepted(last, p.verdicts, netlocOf) then [last] else []);
    }
  }

  /** The accepted results of a prefix stay the same when the map gains
      entries for domains that no linked result of the prefix has. */
  lemma {:induction false} AcceptedOnlyStable(results: seq<SearchResult>, m1: map<string, bool>,
                                              m2: map<string, bool>, netlocOf: string -> string)
    requires Extends(m2, m1)
    requires forall i :: 0 <= i < |results| && HasLink(results[i]) ==> KeyOf(results[i], netlocOf) in m1
    ensures AcceptedOnly(results, m1, netlocOf) == AcceptedOnly(results, m2, netlocOf)
    decreases |results|
  {
    if |results| > 0 {
      var init := results[..|results| - 1];
      assert forall i :: 0 <= i < |init| ==> init[i] == results[i];
      AcceptedOnlyStable(init, m1, m2, netlocOf);
    }
  }

  /** The filter keeps an order-preserving subsequence of its input, and a
      result is in the output exactly when it is in the input and the final
      verdict of its domain accepts it. */
  lemma {:induction false} AcceptedOnlySpec(results: seq<SearchResult>, verdicts: map<string, bool>,
                                            netlocOf: string -> string)
    ensures var out := AcceptedOnly(results, verdicts, netlocOf);
            && IsSubsequence(out, results)
            && (forall r :: r in out <==> r in results && Accepted(r, verdicts, netlocOf))
    decreases |results|
  {
    var out := AcceptedOnly(results, verdicts, netlocOf);
    if |results| > 0 {
      var init, last := results[..|results| - 1], results[|results| - 1];
      AcceptedOnlySpec(init, verdicts, netlocOf);
      var prev := AcceptedOnly(init, verdicts, netlocOf);
      assert results == init + [last];
      if Accepted(last, verdicts, netlocOf) {
        assert out[..|out| - 1] == prev;
      } else if |prev| > 0 {
        assert results[..|results| - 1] == init;
      }
    }
  }

  /** A domain the map did not know is decided by the probe of the first
      linked result of that domain: later results of the domain never cause
      a second probe and cannot change that verdict. */
  lemma {:induction false} RunVerdictFromFirstProbe(results: seq<SearchResult>, known: map<string, bool>,
                                                    netlocOf: string -> string, probe: string -> ProbeResult,
                                                    i: nat)
    requires i < |results| && HasLink(results[i])
    requires KeyOf(results[i], netlocOf) !in known
    requires forall j :: 0 <= j < i && HasLink(results[j]) ==> KeyOf(results[j], netlocOf) != KeyOf(results[i], netlocOf)
    ensures var p := Run(results, known, netlocOf, probe);
            var key := KeyOf(results[i], netlocOf);
            key in p.verdicts && p.verdicts[key] == Verdict(probe(results[i].link.value))
    decreases |results|
  {
    var init, last := results[..|results| - 1], results[|results| - 1];
    var q := Run(init, known, netlocOf, probe);
    var key := KeyOf(results[i], netlocOf);
    StepKeeps(q, last, netlocOf, probe);
    if i < |init| {
      assert init[i] == results[i];
      RunVerdictFromFirstProbe(init, known, netlocOf, probe, i);
    } else {
      RunCache(init, known, netlocOf, probe);
      assert key !in q.verdicts;
    }
  }

  /** What the filter promises, in one place: it keeps an order-preserving
      subsequence of its input; a result is kept exactly when it has a link
      and the final verdict of its root domain is "accessible"; the final
      map keeps every verdict it started with and gains one for each new
      domain; and no domain is probed twice or probed when already known. */
  lemma FilterSpec(results: seq<SearchResult>, known: map<string, bool>,
                   netlocOf: string -> string, probe: string -> ProbeResult)
    ensures var p := Run(results, known, netlocOf, probe);
            && IsSubsequence(p.kept, results)
            && (forall r :: r in p.kept <==> r in results && Accepted(r, p.verdicts, netlocOf))
            && Extends(p.verdicts, known)
            && p.verdicts.Keys == known.Keys + LinkedKeys(results, netlocOf)
            && Distinct(p.probed)
            && (forall k :: k in p.probed <==> k in p.verdicts && k !in known)
  {
    RunKeepsAccepted(results, known, netlocOf, probe);
    AcceptedOnlySpec(results, Run(results, known, netlocOf, probe).verdicts, netlocOf);
    RunCache(results, known, netlocOf, probe);
  }

  /** The number of search results `get_snippet` asks for. */
  const ResultCount: nat := 10

  /** The first `n` elements of `s`, or all of them when there are fewer:
      Python's `s[:n]`. */
  function Take<T>(s: seq<T>, n: nat): (r: seq<T>)
    ensures r <= s
    ensures |r| == if |s| <= n then |s| else n
  {
    if |s| <= n then s else s[..n]
  }

  /** Some kept result gets summarised: its article is fetched and its
      paragraphs hold at least 200 characters. */
  predicate AnySummarised(kept: seq<SearchResult>, summarises: SearchResult -> bool)
  {
    exists i :: 0 <= i < |kept| && summarises(kept[i])
  }

  /** The summarising loop of `get_snippet`, reduced to whether it binds
      `resp`, that is, whether any kept result gets summarised. */
  method SummariseKept(kept: seq<SearchResult>, summarises: SearchResult -> bool)
    returns (any: bool)
    ensures any <==> AnySummarised(kept, summarises)
  {
    any := false;
    for i := 0 to |kept|
      invariant any <==> exists j :: 0 <= j < i && summarises(kept[j])
    {
      if summarises(kept[i]) {
        any := true;
      }
    }
  }

  /** The module-level state that `get_snippet` works on: the result list
      and the domain store. */
  class Session {
    var resultList: seq<SearchResult>
    const store: DomainStore

    /** `resultList = []` at module load, sharing the loaded store. */
    constructor (store: DomainStore)
      ensures this.store == store && resultList == []
    {
      this.store := store;
      resultList := [];
    }

    /** The part of `search` after the network call: the first
        `numResults` of the hits the search service returned (none when the
        call raised) are appended to `resultList`. */
    method Search(found: seq<SearchResult>, numResults: nat)
      modifies this
      ensures resultList == old(resultList) + Take(found, numResults)
    {
      resultList := resultList + Take(found, numResults);
    }

    /** `get_snippet` as written, for its effect on the result list and the
        domain map: clear the result list, search for ten hits, filter them,
        then walk the kept results and summarise those whose article can be
        fetched and is long enough (`summarises` stands for that fetch and
        length check). The token count after the loop reads `resp` from the
        last summary, so when no article was summarised the function raises
        before the final save: `completed` is false, and the file is in
        whatever state the filter left it. */
    method GetSnippet(found: seq<SearchResult>, netlocOf: string -> string,
                      probe: string -> ProbeResult, summarises: SearchResult -> bool)
      returns (completed: bool)
      modifies this, store
      ensures var p := Run(Take(found, ResultCount), old(store.domainMap), netlocOf, probe);
              && resultList == p.kept
              && store.domainMap == p.verdicts
              && store.probes == old(store.probes) + p.probed
              && (completed <==> AnySummarised(p.kept, summarises))
              && (if completed || p.probed != [] then store.Synced()
                  else store.persisted == old(store.persisted))
    {
      resultList := [];
      Search(found, ResultCount);
      assert resultList == Take(found, ResultCount);
      FilterPaywalled(netlocOf, probe);
      completed := SummariseKept(resultList, summarises);
      if completed {
        store.Save();
      }
    }

    /** `get_snippet` with both token counters bound before the summarising
        loop and the final count taken from the final summary's own
        response, so that it always reaches the final save: afterwards the
        file mirrors the map whatever state it was in before. */
    method GetSnippetIntended(found: seq<SearchResult>, netlocOf: string -> string,
                              probe: string -> ProbeResult)
      modifies this, store
      ensures var p := Run(Take(found, ResultCount), old(store.domainMap), netlocOf, probe);
              && resultList == p.kept
              && store.domainMap == p.verdicts
              && store.probes == old(store.probes) + p.probed
              && store.Synced()
    {
      resultList := [];
      Search(found, ResultCount);
      assert resultList == Take(found, ResultCount);
      FilterPaywalled(netlocOf, probe);
      store.Save();
    }

    /** The filter loop of `get_snippet`: walks a copy of `resultList` in
        order and then replaces its contents with the kept results. Every
        probe goes through `store.IsAccessible`, so the file is written after
        each new verdict. */
    method FilterPaywalled(netlocOf: string -> string, probe: string -> ProbeResult)
      modifies this, store
      ensures var p := Run(old(resultList), old(store.domainMap), netlocOf, probe);
              && resultList == p.kept
              && store.domainMap == p.verdicts
              && store.probes == old(store.probes) + p.probed
              && (if p.probed == [] then store.persisted == old(store.persisted) else store.Synced())
    {
      var original := resultList;
      var filtered: seq<SearchResult> := [];
      for i := 0 to |original|
        invariant var p := Run(original[..i], old(store.domainMap), netlocOf, probe);
                  && filtered == p.kept
                  && store.domainMap == p.verdicts
                  && store.probes == old(store.probes) + p.probed
                  && (if p.probed == [] then store.persisted == old(store.persisted) else store.Synced())
      {
        var res := original[i];
        ghost var before := Run(original[..i], old(store.domainMap), netlocOf, probe);
        ghost var after := Step(before, res, netlocOf, probe);
        assert original[..i + 1][..i] == original[..i];
        assert Run(original[..i + 1], old(store.domainMap), netlocOf, probe) == after;
        if res.link.None? || res.link.value == "" {
          continue;
        }
        var url := res.link.value;
        var domain := RootDomain(netlocOf(url));
        if domain in store.domainMap {
          if store.domainMap[domain] {
            filtered := filtered + [res];
          }
          continue;
        }
        var accessible := store.IsAccessible(url, netlocOf, probe);
        assert accessible == Verdict(probe(url));
        if accessible {
          filtered := filtered + [res];
        }
      }
      assert original[..|original|] == original;
      resultList := filtered;
    }
  }

  /** With a status file whose text is not JSON at start-up and no search
      hits, `get_snippet` keeps, probes and summarises nothing, so it raises
      before its final save and the file is still malformed afterwards. */
  method NoHitsSkipsSave(netlocOf: string -> string, probe: string -> ProbeResult,
                         summarises: SearchResult -> bool)
    returns (completed: bool, store: DomainStore)
    ensures !completed
    ensures store.domainMap == map[] && store.probes == []
    ensures store.persisted == Malformed
  {
    store := new DomainStore(Malformed);
    var session := new Session(store);
    completed := session.GetSnippet([], netlocOf, probe, summarises);
  }

  /** An end-to-end run of the filter, for any two domains:
      two results from a domain that answers 403, then one from another
      domain whose probe finds no paywall. Only the last result is kept,
      each domain is probed once, and the map ends with one verdict per
      domain. */
  lemma FilterScenario(a1: SearchResult, a2: SearchResult, b1: SearchResult,
                       netlocOf: string -> string, probe: string -> ProbeResult)
    requires HasLink(a1) && HasLink(a2) && HasLink(b1)
    requires KeyOf(a1, netlocOf) == KeyOf(a2, netlocOf) != KeyOf(b1, netlocOf)
    requires probe(a1.link.value) == Response(403, {})
    requires Verdict(probe(b1.link.value))
    ensures var a, b := KeyOf(a1, netlocOf), KeyOf(b1, netlocOf);
            Run([a1, a2, b1], map[], netlocOf, probe) == Pass([b1], map[a := false, b := true], [a, b])
  {
    var a, b := KeyOf(a1, netlocOf), KeyOf(b1, netlocOf);
    var r0 := Run([], map[], netlocOf, probe);
    var r1 := Run([a1], map[], netlocOf, probe);
    var r2 := Run([a1, a2], map[], netlocOf, probe);
    var r3 := Run([a1, a2, b1], map[], netlocOf, probe);
    assert r0 == Pass([], map[], []);
    assert r1 == Pass([], map[a := false], [a]) by {
      assert [a1][..0] == [];
      assert r1 == Step(r0, a1, netlocOf, probe);
    }
    assert r2 == r1 by {
      assert [a1, a2][..1] == [a1];
      assert r2 == Step(r1, a2, netlocOf, probe);
    }
    assert r3 == Pass([b1], map[a := false, b := true], [a, b]) by {
      assert [a1, a2, b1][..2] == [a1, a2];
      assert r3 == Step(r2, b1, netlocOf, probe);
    }
  }

  /** The same scenario with concrete links: `a.example`
      answers 403 and `b.example` answers 200 with no paywall marker. */
  lemma FilterExample(a1: SearchResult, a2: SearchResult, b1: SearchResult)
    requires a1.link == Some("https://a.example/1")
    requires a2.link == Some("https://a.example/2")
    requires b1.link == Some("https://b.example/1")
    ensures Run([a1, a2, b1], map[], ExampleNetloc, ExampleProbe)
         == Pass([b1], map["a.example" := false, "b.example" := true], ["a.example", "b.example"])
  {
    assert ExampleNetloc("https://a.example/1") == "a.example" by {
      assert "https://a.example/1"[8] != "https://b.example/1"[8];
    }
    assert ExampleNetloc("https://a.example/2") == "a.example" by {
      assert "https://a.example/2"[8] != "https://b.example/1"[8];
    }
    ExampleKeys();
    assert KeyOf(a1, ExampleNetloc) == "a.example";
    assert KeyOf(a2, ExampleNetloc) == "a.example";
    assert KeyOf(b1, ExampleNetloc) == "b.example";
    assert Verdict(ExampleProbe(b1.link.value)) by {
      assert !PaywallMarked({});
    }
    FilterScenario(a1, a2, b1, ExampleNetloc, ExampleProbe);
  }

  /** `urlparse(url).netloc` on the links of the example. */
  function ExampleNetloc(url: string): string
  {
    if url == "https://b.example/1" then "b.example" else "a.example"
  }

  /** The probe outcomes of the example. */
  function ExampleProbe(url: string): ProbeResult
  {
    if url == "https://b.example/1" then Response(200, {}) else Response(403, {})
  }

  /** The example hosts are their own keys. */
  lemma ExampleKeys()
    ensures RootDomain("a.example") == "a.example"
    ensures RootDomain("b.example") == "b.example"
  {
    ExampleHostA();
    RootDomainOfRootKey("a.example");
    ExampleHostB();
    RootDomainOfRootKey("b.example");
  }

  /** `a.example` is lower case and holds one dot. */
  lemma ExampleHostA()
    ensures Lower("a.example") == "a.example" && Occurrences("a.example", '.') <= 1
  {
    LowerOfLowerCase("a.example");
    assert "a" + "." + "example" == "a.example";
    OneDotBetween("a", "example");
  }

  /** `b.example` is lower case and holds one dot. */
  lemma ExampleHostB()
    ensures Lower("b.example") == "b.example" && Occurrences("b.example", '.') <= 1
  {
    LowerOfLowerCase("b.example");
    assert "b" + "." + "example" == "b.example";
    OneDotBetween("b", "example");
  }
}
