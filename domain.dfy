// Preview-host matching: a configured pattern such as `*.example.org` is
// compared label by label with the request's host (its port removed).
module Domain {
  import opened GoStrings

  /** matchDomainArray. */
  function MatchLabels(pattern: seq<string>, host: seq<string>): (r: bool) {
    if |pattern| != |host| then false
    else if |pattern| == 0 then true
    else if pattern[0] == "*" then true
    else if pattern[0] != host[0] then false
    else MatchLabels(pattern[1..], host[1..])
  }

  /** The host with everything from its last ':' removed. */
  function StripPort(host: string): (r: string)
    ensures ':' !in host ==> r == host
    ensures ':' in host ==> |r| < |host| && host[..|r|] == r && host[|r|] == ':' && ':' !in host[|r| + 1..]
  {
    var i := LastIndexOf(host, ':');
    if i == -1 then host else host[..i]
  }

  /** matchDomain. */
  function MatchDomain(pattern: string, host: string): (r: bool) {
    MatchLabels(Split(pattern, '.'), Split(StripPort(host), '.'))
  }

  /** Index of the first "*" label, or the length when there is none. */
  function FirstStar(labels: seq<string>): (n: nat)
    ensures n <= |labels|
    ensures forall j :: 0 <= j < n ==> labels[j] != "*"
    ensures n < |labels| ==> labels[n] == "*"
  {
    if labels == [] then 0
    else if labels[0] == "*" then 0
    else 1 + FirstStar(labels[1..])
  }

  /**
   * The matching rule in closed form: the same number of labels, and equal
   * labels up to the first "*" of the pattern; whatever follows a "*" is not
   * compared at all.
   */
  lemma {:induction false} MatchLabelsMeaning(pattern: seq<string>, host: seq<string>)
    ensures MatchLabels(pattern, host) <==>
      |pattern| == |host| && forall j :: 0 <= j < FirstStar(pattern) ==> pattern[j] == host[j]
  {
    if |pattern| == |host| && |pattern| > 0 && pattern[0] != "*" && pattern[0] == host[0] {
      MatchLabelsMeaning(pattern[1..], host[1..]);
      assert FirstStar(pattern) == 1 + FirstStar(pattern[1..]);
      forall j | 1 <= j < FirstStar(pattern)
        ensures pattern[j] == pattern[1..][j - 1] && host[j] == host[1..][j - 1]
      {
      }
    }
  }

  /** Without any "*", a pattern matches exactly the equal label sequence. */
  lemma ExactMatch(pattern: seq<string>, host: seq<string>)
    requires forall j :: 0 <= j < |pattern| ==> pattern[j] != "*"
    ensures MatchLabels(pattern, host) <==> pattern == host
  {
    MatchLabelsMeaning(pattern, host);
    assert FirstStar(pattern) == |pattern| by {
      var n := FirstStar(pattern);
      assert !(n < |pattern|);
    }
  }

  /** Splitting a dotted name made of dot-free labels gives the labels back. */
  lemma Labels(labels: seq<string>)
    requires |labels| >= 1 && forall i :: 0 <= i < |labels| ==> '.' !in labels[i]
    ensures Split(JoinWith(labels, '.'), '.') == labels
  {
    SplitJoin(labels, '.');
  }

  /** A dot-free first label is split off as it stands. */
  lemma Dotted(a: string, b: string)
    requires '.' !in a
    ensures Split(a + "." + b, '.') == [a] + Split(b, '.')
  {
    assert a + "." + b == a + ['.'] + b;
    SplitAppend(a, b, '.');
    SplitFree(a, '.');
  }

  /** Putting a colon-free label and a dot in front keeps a name colon-free. */
  lemma NoColon(a: string, b: string)
    requires ':' !in a && ':' !in b
    ensures ':' !in a + "." + b
  {
    assert forall i :: 0 <= i < |a + "." + b| ==> (a + "." + b)[i] == (if i < |a| then a[i] else if i == |a| then '.' else b[i - |a| - 1]);
  }

  /** A colon-free host is compared label by label as it stands. */
  lemma NoPort(pattern: string, host: string)
    requires ':' !in host
    ensures MatchDomain(pattern, host) == MatchLabels(Split(pattern, '.'), Split(host, '.'))
  {
  }

  /** Every label sequence matches itself. */
  lemma {:induction false} MatchSelf(labels: seq<string>)
    ensures MatchLabels(labels, labels)
  {
    if labels != [] && labels[0] != "*" {
      MatchSelf(labels[1..]);
    }
  }

  /** A colon-free name matches itself. */
  lemma SameName(x: string)
    requires ':' !in x
    ensures MatchDomain(x, x)
  {
    NoPort(x, x);
    MatchSelf(Split(x, '.'));
  }

  /** A `*` first label matches any one first label before the same rest. */
  lemma StarFirst(p: string, h: string, a: string, r: string)
    requires '.' !in a && ':' !in h
    requires p == "*" + "." + r && h == a + "." + r
    ensures MatchDomain(p, h)
  {
    NoPort(p, h);
    Dotted("*", r);
    Dotted(a, r);
  }

  /** Different first labels, none of them `*`, before the same rest never match. */
  lemma FirstDiffers(p: string, h: string, a: string, b: string, r: string)
    requires '.' !in a && '.' !in b && a != b && a != "*" && ':' !in h
    requires p == a + "." + r && h == b + "." + r
    ensures !MatchDomain(p, h)
  {
    NoPort(p, h);
    Dotted(a, r);
    Dotted(b, r);
  }

  /** A host with one label more than the pattern never matches. */
  lemma OneLabelMore(p: string, h: string, a: string)
    requires '.' !in a && ':' !in h && h == a + "." + p
    ensures !MatchDomain(p, h)
  {
    NoPort(p, h);
    Dotted(a, p);
  }

  /** A host with two labels before the rest never matches a pattern with one. */
  lemma TwoLabelsForOne(p: string, h: string, m: string, x: string, a: string, b: string, r: string)
    requires '.' !in x && '.' !in a && '.' !in b && ':' !in h
    requires p == x + "." + r && m == b + "." + r && h == a + "." + m
    ensures !MatchDomain(p, h)
  {
    NoPort(p, h);
    Dotted(x, r);
    Dotted(b, r);
    Dotted(a, m);
  }

  /** The names of the matching test, each its first label, a dot and the rest. */
  lemma TestNames()
    ensures "bysir.top" == "bysir" + "." + "top"
    ensures "blog.bysir.top" == "blog" + "." + "bysir.top"
    ensures "*.bysir.top" == "*" + "." + "bysir.top"
    ensures "editor.blog.bysir.top" == "editor" + "." + "blog.bysir.top"
    ensures "preview.blog.bysir.top" == "preview" + "." + "blog.bysir.top"
    ensures "editor.blog.bysir.top:9091" == "editor.blog.bysir.top" + ":" + "9091"
  {
  }

  /** No name of the matching test has a port. */
  lemma TestColons()
    ensures ':' !in "bysir.top" && ':' !in "blog.bysir.top"
    ensures ':' !in "editor.blog.bysir.top" && ':' !in "9091"
  {
    TestNames();
    NoColon("bysir", "top");
    NoColon("blog", "bysir.top");
    NoColon("editor", "blog.bysir.top");
  }

  lemma CaseSameTwoLabels()
    ensures MatchDomain("bysir.top", "bysir.top")
  {
    TestColons();
    SameName("bysir.top");
  }

  lemma CaseSameThreeLabels()
    ensures MatchDomain("blog.bysir.top", "blog.bysir.top")
  {
    TestColons();
    SameName("blog.bysir.top");
  }

  lemma CaseWildcard()
    ensures MatchDomain("*.bysir.top", "blog.bysir.top")
  {
    TestNames();
    TestColons();
    StarFirst("*.bysir.top", "blog.bysir.top", "blog", "bysir.top");
  }

  lemma CaseWildcardTooDeep()
    ensures !MatchDomain("*.bysir.top", "editor.blog.bysir.top")
  {
    TestNames();
    TestColons();
    TwoLabelsForOne("*.bysir.top", "editor.blog.bysir.top", "blog.bysir.top", "*", "editor", "blog", "bysir.top");
  }

  lemma CaseParentDomain()
    ensures !MatchDomain("bysir.top", "blog.bysir.top")
  {
    TestNames();
    TestColons();
    OneLabelMore("bysir.top", "blog.bysir.top", "blog");
  }

  lemma CaseOtherHost()
    ensures !MatchDomain("preview.blog.bysir.top", "editor.blog.bysir.top")
  {
    TestNames();
    TestColons();
    assert "preview" != "editor" by { assert "preview"[0] != "editor"[0]; }
    FirstDiffers("preview.blog.bysir.top", "editor.blog.bysir.top", "preview", "editor", "blog.bysir.top");
  }

  lemma EditorPortIgnored()
    ensures MatchDomain("preview.blog.bysir.top", "editor.blog.bysir.top:9091")
         == MatchDomain("preview.blog.bysir.top", "editor.blog.bysir.top")
  {
    TestNames();
    TestColons();
    PortIgnored("preview.blog.bysir.top", "editor.blog.bysir.top", "9091");
  }

  lemma CaseOtherHostWithPort()
    ensures !MatchDomain("preview.blog.bysir.top", "editor.blog.bysir.top:9091")
  {
    CaseOtherHost();
    EditorPortIgnored();
  }

  /** The six cases of the source's matching test. */
  lemma MatchDomainCases()
    ensures MatchDomain("bysir.top", "bysir.top")
    ensures MatchDomain("blog.bysir.top", "blog.bysir.top")
    ensures MatchDomain("*.bysir.top", "blog.bysir.top")
    ensures !MatchDomain("*.bysir.top", "editor.blog.bysir.top")
    ensures !MatchDomain("bysir.top", "blog.bysir.top")
    ensures !MatchDomain("preview.blog.bysir.top", "editor.blog.bysir.top:9091")
  {
    CaseSameTwoLabels();
    CaseSameThreeLabels();
    CaseWildcard();
    CaseWildcardTooDeep();
    CaseParentDomain();
    CaseOtherHostWithPort();
  }

  /** The port is ignored: a host matches with a port exactly when it matches without one. */
  lemma PortIgnored(pattern: string, host: string, port: string)
    requires ':' !in host && ':' !in port
    ensures MatchDomain(pattern, host + ":" + port) == MatchDomain(pattern, host)
  {
    var h := host + ":" + port;
    assert h == host + [':'] + port;
    LastIndexAfter(host, port, ':');
    assert StripPort(h) == host;
  }
}
