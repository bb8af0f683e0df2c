/** Domain-suffix matching of `admission.py`, against the labels of a name. */
module Domains {
  import opened Texts

  function Normalise(name: string): string {
    RStrip(Lower(name), '.')
  }

  /** _host_in_domain */
  predicate HostInDomain(host: string, domain: string) {
    var h, d := Normalise(host), Normalise(domain);
    h == d || EndsWith(h, "." + d)
  }

  /** The dot-separated labels of a name, from left to right; never empty. */
  function Labels(name: string): (labels: seq<string>)
    ensures labels != []
  {
    if name == "" then [""]
    else
      var rest := Labels(name[1..]);
      if name[0] == '.' then [""] + rest else [[name[0]] + rest[0]] + rest[1..]
  }

  predicate IsSuffix<T(==)>(suffix: seq<T>, s: seq<T>) {
    |suffix| <= |s| && s[|s| - |suffix|..] == suffix
  }

  /** Putting the labels back together. */
  function Join(labels: seq<string>): string
    requires labels != []
  {
    if |labels| == 1 then labels[0] else labels[0] + "." + Join(labels[1..])
  }

  lemma {:induction false} JoinLabels(name: string)
    ensures Join(Labels(name)) == name
  {
    if name != "" {
      var rest := Labels(name[1..]);
      JoinLabels(name[1..]);
      if name[0] == '.' {
        assert Labels(name)[1..] == rest;
      } else {
        assert Labels(name)[1..] == rest[1..];
        if |rest| > 1 {
          assert [name[0]] + (rest[0] + "." + Join(rest[1..])) == ([name[0]] + rest[0]) + "." + Join(rest[1..]);
        }
      }
      assert [name[0]] + name[1..] == name;
    }
  }

  /** Labels of a name split at a dot. */
  lemma {:induction false} LabelsAppend(left: string, right: string)
    ensures Labels(left + "." + right) == Labels(left) + Labels(right)
  {
    var name := left + "." + right;
    if left == "" {
      assert name[1..] == right;
    } else {
      assert name[1..] == left[1..] + "." + right;
      LabelsAppend(left[1..], right);
    }
  }

  lemma {:induction false} JoinAppend(a: seq<string>, b: seq<string>)
    requires a != [] && b != []
    ensures Join(a + b) == Join(a) + "." + Join(b)
  {
    if |a| == 1 {
      assert (a + b)[1..] == b;
    } else {
      assert (a + b)[1..] == a[1..] + b;
      JoinAppend(a[1..], b);
      assert a[0] + "." + (Join(a[1..]) + "." + Join(b)) == (a[0] + "." + Join(a[1..])) + "." + Join(b);
    }
  }

  lemma EndingGivesLabelSuffix(h: string, d: string)
    requires h == d || EndsWith(h, "." + d)
    ensures IsSuffix(Labels(d), Labels(h))
  {
    if h != d {
      var left := h[..|h| - |d| - 1];
      assert h == left + ("." + d) == left + "." + d;
      LabelsAppend(left, d);
      assert (Labels(left) + Labels(d))[|Labels(left)|..] == Labels(d);
    }
  }

  lemma JoinSuffix(hs: seq<string>, ds: seq<string>)
    requires hs != [] && ds != [] && IsSuffix(ds, hs)
    ensures Join(hs) == Join(ds) || EndsWith(Join(hs), "." + Join(ds))
  {
    var first := hs[..|hs| - |ds|];
    assert hs == first + ds;
    if first != [] {
      JoinAppend(first, ds);
      assert Join(first) + "." + Join(ds) == Join(first) + ("." + Join(ds));
    }
  }

  /**
   A host is in a domain exactly when the labels of the normalised domain are
   the last labels of the normalised host, for all strings.
   */
  lemma HostInDomainIsLabelSuffix(host: string, domain: string)
    ensures HostInDomain(host, domain) <==> IsSuffix(Labels(Normalise(domain)), Labels(Normalise(host)))
  {
    var h, d := Normalise(host), Normalise(domain);
    if HostInDomain(host, domain) {
      EndingGivesLabelSuffix(h, d);
    }
    if IsSuffix(Labels(d), Labels(h)) {
      JoinSuffix(Labels(h), Labels(d));
      JoinLabels(h);
      JoinLabels(d);
    }
  }

  lemma SuffixOfSuffix<T>(x: seq<T>, y: seq<T>, z: seq<T>)
    requires IsSuffix(x, y) && IsSuffix(y, z)
    ensures IsSuffix(x, z)
  {
    assert z[|z| - |x|..] == y[|y| - |x|..];
  }

  lemma HostInDomainIsPreorder(a: string, b: string, c: string)
    ensures HostInDomain(a, a)
    ensures HostInDomain(a, b) && HostInDomain(b, c) ==> HostInDomain(a, c)
  {
    HostInDomainIsLabelSuffix(a, b);
    HostInDomainIsLabelSuffix(b, c);
    HostInDomainIsLabelSuffix(a, c);
    if HostInDomain(a, b) && HostInDomain(b, c) {
      SuffixOfSuffix(Labels(Normalise(c)), Labels(Normalise(b)), Labels(Normalise(a)));
    }
  }

  /** Normalising twice is normalising once, so matching never depends on case or trailing dots. */
  lemma {:induction false} RStripStable(s: string, c: char)
    ensures RStrip(RStrip(s, c), c) == RStrip(s, c)
    ensures RStrip(s, c) <= s
    ensures RStrip(s, c) == "" || RStrip(s, c)[|RStrip(s, c)| - 1] != c
    ensures forall i :: |RStrip(s, c)| <= i < |s| ==> s[i] == c
  {
    if s != "" && s[|s| - 1] == c {
      RStripStable(s[..|s| - 1], c);
    }
  }

  /** A normalised name is the lower-case name up to the dots it ends with. */
  lemma NormaliseIs(name: string)
    ensures Normalise(name) <= Lower(name)
    ensures Normalise(name) == "" || Normalise(name)[|Normalise(name)| - 1] != '.'
    ensures forall i :: |Normalise(name)| <= i < |name| ==> Lower(name)[i] == '.'
  {
    RStripStable(Lower(name), '.');
  }

  lemma NormaliseTwice(name: string)
    ensures Normalise(Normalise(name)) == Normalise(name)
  {
    RStripStable(Lower(name), '.');
    assert Lower(Normalise(name)) == Normalise(name);
  }

  lemma CaseAndDotsIgnored(host: string, domain: string)
    ensures HostInDomain(host + ".", domain) == HostInDomain(host, domain) == HostInDomain(host, domain + ".")
    ensures HostInDomain(Upper(host), domain) == HostInDomain(host, domain) == HostInDomain(host, Upper(domain))
  {
    NormaliseIgnores(host);
    NormaliseIgnores(domain);
  }

  lemma NormaliseIgnores(name: string)
    ensures Normalise(name + ".") == Normalise(name) == Normalise(Upper(name))
  {
    assert Lower(name + ".") == Lower(name) + ".";
    assert (Lower(name) + ".")[..|name|] == Lower(name);
    assert Lower(Upper(name)) == Lower(name);
  }
}
