/**
 * The classification key of a URL: its root domain, the last two
 * dot-separated labels of the lower-cased network location.
 *
 * The network location (what `urlparse(url).netloc` yields) is the input
 * here; URL parsing itself is not part of this model.
 */
module DomainKey {

  /** ASCII lower-casing of one character. */
  function LowerChar(c: char): char
  {
    if 'A' <= c <= 'Z' then (c as int + 32) as char else c
  }

  /** No ASCII upper-case letter occurs in `s`. */
  predicate IsLowerCase(s: string)
  {
    forall i :: 0 <= i < |s| ==> !('A' <= s[i] <= 'Z')
  }

  /** `s.lower()`, restricted to the ASCII letters. */
  function Lower(s: string): (r: string)
    ensures |r| == |s|
  {
    seq(|s|, i requires 0 <= i < |s| => LowerChar(s[i]))
  }

  /** Lower-casing maps each character on its own and leaves no upper-case
      letter behind. */
  lemma LowerSpec(s: string)
    ensures forall i :: 0 <= i < |s| ==> Lower(s)[i] == LowerChar(s[i])
    ensures IsLowerCase(Lower(s))
  {
  }

  /** A string with no upper-case letter is its own lower-cased form. */
  lemma LowerOfLowerCase(s: string)
    requires IsLowerCase(s)
    ensures Lower(s) == s
  {
    LowerSpec(s);
    assert forall i :: 0 <= i < |s| ==> Lower(s)[i] == s[i];
  }

  /** Lower-casing twice is lower-casing once. */
  lemma LowerIdempotent(s: string)
    ensures Lower(Lower(s)) == Lower(s)
  {
  }

  /** How many times `c` occurs in `s`. */
  function Occurrences(s: string, c: char): nat
  {
    multiset(s)[c]
  }

  /** Python's `s.split(sep)` with an explicit one-character separator:
      the pieces between separators, empty pieces included. Like Python's,
      it never returns an empty list. */
  function Split(s: string, sep: char): (parts: seq<string>)
    ensures |parts| >= 1
    decreases |s|
  {
    if |s| == 0 then [""]
    else
      var p := Split(s[..|s| - 1], sep);
      if s[|s| - 1] == sep then p + [""]
      else p[..|p| - 1] + [p[|p| - 1] + [s[|s| - 1]]]
  }

  /** There is one piece more than there are separators, and no piece
      holds a separator. */
  lemma {:induction false} SplitSpec(s: string, sep: char)
    ensures |Split(s, sep)| == Occurrences(s, sep) + 1
    ensures forall k :: 0 <= k < |Split(s, sep)| ==> sep !in Split(s, sep)[k]
    decreases |s|
  {
    if |s| > 0 {
      var init, last := s[..|s| - 1], s[|s| - 1];
      SplitSpec(init, sep);
      assert multiset(s) == multiset(init) + multiset{last} by {
        assert s == init + [last];
      }
      var p := Split(init, sep);
      var parts := Split(s, sep);
      if last != sep {
        forall k | 0 <= k < |parts| ensures sep !in parts[k] {
          if k < |p| - 1 {
            assert parts[k] == p[k];
          } else {
            assert parts[k] == p[|p| - 1] + [last];
          }
        }
      }
    }
  }

  /** Splitting and joining back on the same separator gives the string
      back. */
  lemma {:induction false} JoinSplit(s: string, sep: char)
    ensures Join(Split(s, sep), sep) == s
    decreases |s|
  {
    if |s| > 0 {
      var init, last := s[..|s| - 1], s[|s| - 1];
      JoinSplit(init, sep);
      assert s == init + [last];
      if last == sep {
        JoinAppendPiece(Split(init, sep), sep);
      } else {
        JoinExtendLast(Split(init, sep), last, sep);
      }
    }
  }

  /** A new empty last piece adds a separator at the end. */
  lemma JoinAppendPiece(p: seq<string>, sep: char)
    requires |p| >= 1
    ensures Join(p + [""], sep) == Join(p, sep) + [sep]
  {
    assert (p + [""])[..|p|] == p;
  }

  /** A character added to the last piece is added at the end. */
  lemma JoinExtendLast(p: seq<string>, c: char, sep: char)
    requires |p| >= 1
    ensures Join(p[..|p| - 1] + [p[|p| - 1] + [c]], sep) == Join(p, sep) + [c]
  {
    var m := |p|;
    var q := p[..m - 1] + [p[m - 1] + [c]];
    if m > 1 {
      assert q[..m - 1] == p[..m - 1];
    }
  }

  /** Python's `sep.join(parts)`. */
  function Join(parts: seq<string>, sep: char): string
    decreases |parts|
  {
    if |parts| == 0 then ""
    else if |parts| == 1 then parts[0]
    else Join(parts[..|parts| - 1], sep) + [sep] + parts[|parts| - 1]
  }

  /** Joining splits at the joint between any two neighbouring pieces. */
  lemma {:induction false} JoinAt(parts: seq<string>, sep: char, k: nat)
    requires 0 < k < |parts|
    ensures Join(parts, sep) == Join(parts[..k], sep) + [sep] + Join(parts[k..], sep)
    decreases |parts|
  {
    var n := |parts|;
    if k == n - 1 {
      assert parts[k..] == [parts[n - 1]];
    } else {
      var init := parts[..n - 1];
      JoinAt(init, sep, k);
      assert init[..k] == parts[..k];
      assert parts[k..][..|parts[k..]| - 1] == init[k..];
      assert parts[k..][|parts[k..]| - 1] == parts[n - 1];
    }
  }

  /** `get_root_domain`, taking the network location as its input: the last
      two labels of the lower-cased host joined by a dot, or the whole
      lower-cased host when it has fewer than two labels. */
  function RootDomain(netloc: string): string
  {
    var host := Lower(netloc);
    var labels := Split(host, '.');
    if |labels| >= 2 then Join(labels[|labels| - 2..], '.') else host
  }

  /** `t` ends `s`. */
  predicate IsSuffix(t: string, s: string)
  {
    |t| <= |s| && s[|s| - |t|..] == t
  }

  /** What a root-domain key of a host is, without reference to splitting:
      a suffix of the host with at most one dot, which is either the whole
      host or starts right after a dot and holds exactly one dot itself. */
  predicate IsRootKey(key: string, host: string)
  {
    && IsSuffix(key, host)
    && Occurrences(key, '.') <= 1
    && (key == host || (Occurrences(key, '.') == 1 && host[|host| - |key| - 1] == '.'))
  }

  /** The last two labels of a host with at least one dot, joined back, are
      a root key of that host. */
  lemma LastTwoLabels(host: string)
    requires |Split(host, '.')| >= 2
    ensures var labels := Split(host, '.');
            var n := |labels|;
            && Join(labels[n - 2..], '.') == labels[n - 2] + "." + labels[n - 1]
            && IsRootKey(Join(labels[n - 2..], '.'), host)
  {
    var labels := Split(host, '.');
    var n := |labels|;
    var last2 := labels[n - 2..];
    var key := Join(last2, '.');
    assert key == labels[n - 2] + "." + labels[n - 1] by {
      assert last2[..1] == [labels[n - 2]];
      assert Join(last2[..1], '.') == labels[n - 2];
      assert last2[1] == labels[n - 1];
    }
    SplitSpec(host, '.');
    OneDotBetween(labels[n - 2], labels[n - 1]);
    JoinSplit(host, '.');
    if n == 2 {
      assert last2 == labels;
    } else {
      JoinAt(labels, '.', n - 2);
      assert host == Join(labels[..n - 2], '.') + "." + key;
      assert host[|host| - |key|..] == key;
    }
  }

  /** The root domain is the host's last two labels when it has two or
      more, and the whole host otherwise; either way it is a root key of
      the lower-cased host. */
  lemma RootDomainSpec(netloc: string)
    ensures var host := Lower(netloc);
            var labels := Split(host, '.');
            && (|labels| >= 2 ==> RootDomain(netloc) == labels[|labels| - 2] + "." + labels[|labels| - 1])
            && ('.' !in host ==> RootDomain(netloc) == host)
            && IsRootKey(RootDomain(netloc), host)
  {
    var host := Lower(netloc);
    if |Split(host, '.')| >= 2 {
      LastTwoLabels(host);
    } else {
      SplitSpec(host, '.');
    }
  }

  /** Of two suffixes of a host, the longer one holds every dot of the
      shorter one and the character just before it. */
  lemma {:induction false} LongerSuffixDots(short: string, long: string, host: string)
    requires IsSuffix(short, host) && IsSuffix(long, host)
    requires |short| < |long|
    ensures Occurrences(long, '.') >= Occurrences(short, '.') + (if host[|host| - |short| - 1] == '.' then 1 else 0)
  {
    var j := |long| - |short| - 1;
    assert long[j..] == host[|host| - |short| - 1..];
    assert long == long[..j] + [host[|host| - |short| - 1]] + short;
    assert multiset(long) == multiset(long[..j]) + multiset([host[|host| - |short| - 1]]) + multiset(short);
  }

  /** A host has exactly one root key, so RootDomainSpec pins the result
      down completely. */
  lemma RootKeyUnique(a: string, b: string, host: string)
    requires IsRootKey(a, host) && IsRootKey(b, host)
    ensures a == b
  {
    if |a| < |b| {
      LongerSuffixDots(a, b, host);
      assert false;
    } else if |b| < |a| {
      LongerSuffixDots(b, a, host);
      assert false;
    }
  }

  /** The key ignores case: hosts that differ only in the case of their
      letters share one key. */
  lemma {:induction false} RootDomainIgnoresCase(a: string, b: string)
    requires |a| == |b|
    requires forall i :: 0 <= i < |a| ==> LowerChar(a[i]) == LowerChar(b[i])
    ensures RootDomain(a) == RootDomain(b)
    ensures RootDomain(a) == RootDomain(Lower(a))
  {
    LowerSpec(a);
    LowerSpec(b);
    assert Lower(a) == Lower(b);
    LowerIdempotent(a);
  }

  /** The key holds no upper-case letter and at most one dot. */
  lemma RootDomainShape(netloc: string)
    ensures IsLowerCase(RootDomain(netloc))
    ensures Occurrences(RootDomain(netloc), '.') <= 1
  {
    var host, key := Lower(netloc), RootDomain(netloc);
    assert IsSuffix(key, host) by {
      RootDomainSpec(netloc);
    }
    LowerSpec(netloc);
    forall i | 0 <= i < |key| ensures !('A' <= key[i] <= 'Z') {
      assert key[i] == host[|host| - |key| + i];
    }
    RootDomainSpec(netloc);
  }

  /** Being the root key of the lower-cased host characterises the result
      of RootDomain exactly. */
  lemma RootDomainIsTheRootKey(netloc: string, key: string)
    ensures RootDomain(netloc) == key <==> IsRootKey(key, Lower(netloc))
  {
    RootDomainSpec(netloc);
    if IsRootKey(key, Lower(netloc)) {
      RootKeyUnique(RootDomain(netloc), key, Lower(netloc));
    }
  }

  /** Two dot-free labels joined by a dot hold exactly one dot. */
  lemma OneDotBetween(left: string, right: string)
    requires '.' !in left && '.' !in right
    ensures Occurrences(left + "." + right, '.') == 1
  {
    assert multiset(left)['.'] == 0 && multiset(right)['.'] == 0;
    assert multiset(left + "." + right) == multiset(left) + multiset(".") + multiset(right);
  }

  /** A lower-case host with at most one dot is its own key. */
  lemma RootDomainOfRootKey(host: string)
    requires Lower(host) == host
    requires Occurrences(host, '.') <= 1
    ensures RootDomain(host) == host
  {
    RootDomainIsTheRootKey(host, host);
  }

  /** A news host with a sub-domain and mixed case: `www.NYTimes.com` has
      the key `nytimes.com`. */
  lemma RootDomainExample()
    ensures RootDomain("www.NYTimes.com") == "nytimes.com"
  {
    assert Lower("www.NYTimes.com") == "www.nytimes.com" by {
      var host := Lower("www.NYTimes.com");
      LowerSpec("www.NYTimes.com");
      forall i | 0 <= i < 15 ensures host[i] == "www.nytimes.com"[i] {
        assert host[i] == LowerChar("www.NYTimes.com"[i]);
      }
    }
    NyTimesRootKey();
    RootDomainIsTheRootKey("www.NYTimes.com", "nytimes.com");
  }

  /** `nytimes.com` is the root key of `www.nytimes.com`. */
  lemma NyTimesRootKey()
    ensures IsRootKey("nytimes.com", "www.nytimes.com")
  {
    assert "www.nytimes.com"[4..] == "nytimes.com";
    assert "nytimes" + "." + "com" == "nytimes.com";
    OneDotBetween("nytimes", "com");
  }

  /** A host without a dot is its own key; an empty network location has
      the empty key. */
  lemma RootDomainWithoutDot(netloc: string)
    requires '.' !in netloc
    ensures RootDomain(netloc) == Lower(netloc)
    ensures netloc == "" ==> RootDomain(netloc) == ""
  {
    assert '.' !in Lower(netloc) by {
      forall i | 0 <= i < |netloc| ensures Lower(netloc)[i] != '.' {
        assert netloc[i] != '.';
      }
    }
    RootDomainSpec(netloc);
  }
}
