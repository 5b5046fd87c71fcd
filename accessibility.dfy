/**
 * The paywall-accessibility cache: a dictionary from root domain to a
 * verdict (true = accessible, false = paywalled), loaded once from a JSON
 * file, written back to that file after every new verdict, and filled by a
 * one-time probe of a URL whose domain it does not know yet.
 *
 * The probe itself (an HTTP GET with a five-second timeout followed by an
 * HTML parse) is not modelled: its outcome is an input, a ProbeResult.
 */
module Accessibility {
  import opened DomainKey

  /** The CSS selectors of known paywall overlays, tried in this order. */
  const PaywallSelectors: seq<string> :=
    [".paywall", ".subscription-wall", "#gateway-content", ".meteredContent"]

  /** The HTTP status that marks a page as forbidden outright. */
  const Forbidden: int := 403

  /** What fetching a URL gave: the request raised (timeout, DNS failure,
      refused connection, TLS error, ...), or a response with its status
      code and the set of selectors that select at least one element of
      its parsed body. */
  datatype ProbeResult =
    | TransportError
    | Response(status: int, matched: set<string>)

  /** Some paywall selector selects an element of the page. */
  predicate PaywallMarked(matched: set<string>)
  {
    exists i :: 0 <= i < |PaywallSelectors| && PaywallSelectors[i] in matched
  }

  /** The verdict a probe outcome gives, the checks taken in the order the
      probe takes them: a transport failure, then status 403, then the
      paywall selectors, and only then accessible. */
  function Verdict(p: ProbeResult): (accessible: bool)
    ensures accessible ==> p.Response? && p.status != Forbidden
  {
    match p
    case TransportError => false
    case Response(status, matched) =>
      if status == Forbidden then false
      else !PaywallMarked(matched)
  }

  /** The probe is conservative: a failed fetch, a 403 and any paywall
      marker each give "paywalled"; "accessible" needs a non-403 response
      with no marker at all. */
  lemma VerdictCases(p: ProbeResult)
    ensures p.TransportError? ==> !Verdict(p)
    ensures p.Response? && p.status == Forbidden ==> !Verdict(p)
    ensures p.Response? && PaywallMarked(p.matched) ==> !Verdict(p)
    ensures Verdict(p) <==> p.Response? && p.status != Forbidden && !PaywallMarked(p.matched)
  {
  }

  /** The overlay scan: tries the selectors in order and stops at the first
      that selects something. */
  method ScanForPaywall(matched: set<string>) returns (paywalled: bool)
    ensures paywalled <==> PaywallMarked(matched)
  {
    var i := 0;
    while i < |PaywallSelectors|
      invariant 0 <= i <= |PaywallSelectors|
      invariant forall j :: 0 <= j < i ==> PaywallSelectors[j] !in matched
    {
      if PaywallSelectors[i] in matched {
        return true;
      }
      i := i + 1;
    }
    return false;
  }

  /** The state of the status file on disk: missing, present but empty,
      present and readable as text but not valid JSON (the case
      `json.JSONDecodeError` covers), or a decoded domain-to-verdict object.
      A file that cannot be read as text at all is not a state of the
      model: start-up fails on it. */
  datatype StoredFile = Absent | Empty | Malformed | Json(entries: map<string, bool>)

  /** The startup step that makes sure the file exists and is valid JSON:
      a missing or empty file is replaced by an empty object. */
  function EnsureFile(f: StoredFile): (r: StoredFile)
    ensures !r.Absent? && !r.Empty?
    ensures f.Json? || f.Malformed? ==> r == f
  {
    if f.Absent? || f.Empty? then Json(map[]) else f
  }

  /** Reading the status file back: the decoded object, or the empty map
      when the file is missing or its text is not JSON. */
  function LoadDomainMap(f: StoredFile): map<string, bool>
  {
    if f.Json? then f.entries else map[]
  }

  /** Loading never fails: a missing, empty or malformed file reads as no
      knowledge at all, and loading what was saved gives it back. The
      startup step changes nothing that loading sees, and afterwards the
      file decodes unless it was malformed to begin with. */
  lemma LoadDomainMapSpec(f: StoredFile, m: map<string, bool>)
    ensures !f.Json? ==> LoadDomainMap(f) == map[]
    ensures LoadDomainMap(Json(m)) == m
    ensures LoadDomainMap(EnsureFile(f)) == LoadDomainMap(f)
    ensures EnsureFile(f).Json? <==> f != Malformed
  {
  }

  /** The process-wide domain map together with the file that mirrors it. */
  class DomainStore {
    /** `domain_map`: root domain to verdict. */
    var domainMap: map<string, bool>
    /** The content of the status file on disk. */
    ghost var persisted: StoredFile
    /** The root domains probed so far, one entry per network fetch. */
    ghost var probes: seq<string>

    /** Every verdict held in memory is on disk too. */
    ghost predicate Synced()
      reads this
    {
      persisted == Json(domainMap)
    }

    /** Module start-up: make sure the file exists, then load it. */
    constructor (onDisk: StoredFile)
      ensures persisted == EnsureFile(onDisk)
      ensures domainMap == LoadDomainMap(persisted)
      ensures onDisk != Malformed ==> Synced()
      ensures probes == []
    {
      persisted := EnsureFile(onDisk);
      domainMap := LoadDomainMap(EnsureFile(onDisk));
      probes := [];
    }

    /** `save_domain_map(domain_map)`: rewrites the whole file. */
    method Save()
      modifies this`persisted
      ensures Synced()
    {
      persisted := Json(domainMap);
    }

    /** `is_accessible(url)`: the cached verdict of the URL's root domain if
        there is one, otherwise the probe's verdict, recorded and saved
        before it is returned. `netlocOf` stands for `urlparse(..).netloc`
        and `probe` for the fetch and parse of a URL. */
    method IsAccessible(url: string, netlocOf: string -> string, probe: string -> ProbeResult)
      returns (accessible: bool)
      modifies this
      ensures var key := RootDomain(netlocOf(url));
        if key in old(domainMap) then
          && accessible == old(domainMap)[key]
          && domainMap == old(domainMap)
          && persisted == old(persisted)
          && probes == old(probes)
        else
          && accessible == Verdict(probe(url))
          && domainMap == old(domainMap)[key := accessible]
          && Synced()
          && probes == old(probes) + [key]
    {
      var domain := RootDomain(netlocOf(url));
      if domain in domainMap {
        return domainMap[domain];
      }

      probes := probes + [domain];
      var outcome := probe(url);
      if outcome.TransportError? {
        domainMap := domainMap[domain := false];
        Save();
        return false;
      }

      if outcome.status == Forbidden {
        domainMap := domainMap[domain := false];
        Save();
        return false;
      }

      var paywalled := ScanForPaywall(outcome.matched);
      if paywalled {
        domainMap := domainMap[domain := false];
        Save();
        return false;
      }

      domainMap := domainMap[domain := true];
      Save();
      return true;
    }
  }

  /** What a caller can rely on: a second question about the same domain
      is answered from the map, with no new probe and no new write, even
      when the probe would now answer differently. */
  method AskTwice(store: DomainStore, url: string, netlocOf: string -> string,
                  first: string -> ProbeResult, second: string -> ProbeResult)
    returns (a: bool, b: bool)
    modifies store
    ensures b == a
    ensures RootDomain(netlocOf(url)) in store.domainMap && store.domainMap[RootDomain(netlocOf(url))] == a
    ensures |store.probes| <= |old(store.probes)| + 1
  {
    a := store.IsAccessible(url, netlocOf, first);
    ghost var afterFirst := store.persisted;
    ghost var probesAfterFirst := store.probes;
    b := store.IsAccessible(url, netlocOf, second);
    assert store.persisted == afterFirst;
    assert store.probes == probesAfterFirst;
  }
}
