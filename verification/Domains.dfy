/**
 Removing the local domain from host names: `trimdomain`.

 The domain is looked up by the first call and kept; every call cuts its name where the rest
 of the name, after a dot, is the domain.
 */
module Domains {
  import opened CStrings

  /** What `gethostname` delivers. */
  datatype HostLookup = Failed | Found(name: string)

  // ---------- specification ----------

  /** The first position at or after `from` that holds `c`, as `strchr`; -1 if there is none. */
  function IndexOf(s: string, from: nat, c: char): (k: int)
    ensures k == -1 || from <= k < |s|
    ensures k != -1 ==> s[k] == c
    ensures forall i :: from <= i < (if k == -1 then |s| else k) ==> s[i] != c
    decreases |s| - from
  {
    if from >= |s| then -1 else if s[from] == c then from else IndexOf(s, from + 1, c)
  }

  function Lower(c: char): char {
    if 'A' <= c <= 'Z' then c - 'A' + 'a' else c
  }

  /** `strcasecmp` finds no difference. */
  predicate SameIgnoringCase(s: string, t: string) {
    |s| == |t| && forall i :: 0 <= i < |s| ==> Lower(s[i]) == Lower(t[i])
  }

  /** The domain of a host: its name after the first dot, or nothing. */
  function DomainOf(host: HostLookup): string {
    match host
    case Failed => ""
    case Found(name) =>
      var dot := IndexOf(name, 0, '.');
      if dot == -1 then "" else name[dot + 1..]
  }

  /** A name without the given domain at its end. */
  function Trimmed(name: string, domain: string): string {
    var k := |name| - |domain| - 1;
    if domain != "" && k >= 0 && name[k] == '.' && SameIgnoringCase(name[k + 1..], domain) then name[..k]
    else name
  }

  datatype State = State(first: bool, domain: string)

  function DomainAfter(st: State, host: HostLookup): string {
    if st.first then DomainOf(host) else st.domain
  }

  // ---------- the code ----------

  /** The static variables of `trimdomain`. */
  class DomainTrimmer {
    var domain: string
    var first: bool

    ghost function Current(): State
      reads this
    {
      State(first, domain)
    }

    constructor ()
      ensures Current() == State(true, "")
    {
      domain, first := "", true;
    }

    /** Cuts the name in the buffer; `host` is what a host name lookup would deliver now. */
    method Trim(name: array<char>, host: HostLookup)
      requires Terminated(name[..])
      modifies this, name
      ensures Current() == State(false, DomainAfter(old(Current()), host))
      ensures Terminated(name[..])
      ensures Str(name[..]) == Trimmed(Str(old(name[..])), Current().domain)
      ensures forall i :: 0 <= i < name.Length && i != |Str(name[..])| ==> name[i] == old(name[i])
    {
      hide Str, SameIgnoringCase, Trimmed, Lower;
      if first {
        first := false;
        if host.Found? && IndexOf(host.name, 0, '.') != -1 {
          domain := host.name[IndexOf(host.name, 0, '.') + 1..];
        } else {
          domain := "";
        }
      }
      ghost var text := Str(name[..]);
      if domain != "" {
        var cp := 0;
        while true
          invariant name[..] == old(name[..])
          invariant 0 <= cp <= |text|
          invariant forall d :: 0 <= d < cp && text[d] == '.' ==> !SameIgnoringCase(text[d + 1..], domain)
          decreases |text| - cp
        {
          var dot := IndexOf(Str(name[..]), cp, '.');
          if dot == -1 {
            NoDotMatches(text, domain);
            break;
          }
          if SameIgnoringCase(Str(name[..])[dot + 1..], domain) {
            DotMatches(text, domain, dot);
            name[dot] := NUL;
            assert name[..][..dot] == text[..dot];
            StrEnds(name[..], dot);
            break;
          }
          cp := dot + 1;
        }
      } else {
        NoDotMatches(text, domain);
      }
    }
  }

  /** A run of calls on one trimmer, for names in buffers of their own. */
  method TrimEach(trimmer: DomainTrimmer, names: seq<array<char>>, hosts: seq<HostLookup>)
    requires |names| == |hosts| > 0 && trimmer.Current().first
    requires forall i, j :: 0 <= i < j < |names| ==> names[i] != names[j]
    requires forall i :: 0 <= i < |names| ==> Terminated(names[i][..])
    modifies trimmer, names
    ensures trimmer.Current() == State(false, DomainOf(hosts[0]))
    ensures forall i :: 0 <= i < |names| ==> Terminated(names[i][..])
    ensures forall i :: 0 <= i < |names| ==>
      Str(names[i][..]) == Trimmed(Str(old(names[i][..])), DomainOf(hosts[0]))
  {
    hide Str, Trimmed, Terminated, DomainOf;
    for i := 0 to |names|
      invariant i == 0 ==> trimmer.Current().first
      invariant i > 0 ==> trimmer.Current() == State(false, DomainOf(hosts[0]))
      invariant forall j :: i <= j < |names| ==> names[j][..] == old(names[j][..])
      invariant forall j :: 0 <= j < i ==> Terminated(names[j][..])
      invariant forall j :: 0 <= j < i ==>
        Str(names[j][..]) == Trimmed(Str(old(names[j][..])), DomainOf(hosts[0]))
    {
      trimmer.Trim(names[i], hosts[i]);
    }
  }

  lemma NoDotMatches(name: string, domain: string)
    requires domain == "" || forall d :: 0 <= d < |name| && name[d] == '.' ==> !SameIgnoringCase(name[d + 1..], domain)
    ensures Trimmed(name, domain) == name
  {
  }

  lemma DotMatches(name: string, domain: string, dot: nat)
    requires domain != "" && dot < |name| && name[dot] == '.' && SameIgnoringCase(name[dot + 1..], domain)
    ensures Trimmed(name, domain) == name[..dot]
  {
  }

  // ---------- what trimming does ----------

  /** The domain is what follows the first dot, and a name without a dot has none. */
  lemma DomainMeaning(host: string, domain: string)
    requires forall i :: 0 <= i < |host| ==> host[i] != '.'
    ensures DomainOf(Found(host + "." + domain)) == domain
    ensures DomainOf(Found(host)) == "" && DomainOf(Failed) == ""
  {
    var name := host + "." + domain;
    assert name[|host|] == '.';
    assert name[|host| + 1..] == domain;
  }

  /** The same character, or a letter from A to Z (codes 65 to 90) and its small form, 32 codes on. */
  predicate SameLetter(c: char, d: char) {
    c == d
    || (65 <= c as int <= 90 && d as int == c as int + 32)
    || (65 <= d as int <= 90 && c as int == d as int + 32)
  }

  /** Texts are the same ignoring case when they are so letter by letter. */
  lemma CaseMeaning(s: string, t: string)
    ensures SameIgnoringCase(s, t) <==> |s| == |t| && forall i :: 0 <= i < |s| ==> SameLetter(s[i], t[i])
  {
    forall i | 0 <= i < |s| && |s| == |t|
      ensures Lower(s[i]) == Lower(t[i]) <==> SameLetter(s[i], t[i])
    {
      LetterMeaning(s[i], t[i]);
    }
  }

  lemma LetterMeaning(c: char, d: char)
    ensures Lower(c) == Lower(d) <==> SameLetter(c, d)
  {
  }

  /** A name is cut to `p` exactly when it is `p`, a dot, and the nonempty domain in any case. */
  lemma TrimmedMeaning(name: string, domain: string, p: string)
    requires p != name
    ensures Trimmed(name, domain) == p
       <==> domain != "" && exists q :: name == p + "." + q && |q| == |domain|
                                     && forall i :: 0 <= i < |q| ==> SameLetter(q[i], domain[i])
  {
    if q :| name == p + "." + q && |q| == |domain| && forall i :: 0 <= i < |q| ==> SameLetter(q[i], domain[i]) {
      CaseMeaning(q, domain);
      TrimmedSuffix(name, domain, p);
    }
    if Trimmed(name, domain) == p {
      TrimmedSuffix(name, domain, p);
      var q :| name == p + "." + q && SameIgnoringCase(q, domain);
      CaseMeaning(q, domain);
    }
  }

  lemma TrimmedSuffix(name: string, domain: string, p: string)
    requires p != name
    ensures Trimmed(name, domain) == p
       <==> domain != "" && exists q :: name == p + "." + q && SameIgnoringCase(q, domain)
  {
    hide SameIgnoringCase;
    SameLength(domain);
    var k := |name| - |domain| - 1;
    if Trimmed(name, domain) == p {
      assert name == p + "." + name[k + 1..];
    }
    if q :| domain != "" && name == p + "." + q && SameIgnoringCase(q, domain) {
      assert k == |p| && name[k] == '.' && name[k + 1..] == q && name[..k] == p;
    }
  }

  lemma SameLength(t: string)
    ensures forall s :: SameIgnoringCase(s, t) ==> |s| == |t|
  {
  }

  /** A name in capitals is cut by a domain in small letters. */
  lemma CutInAnyCase()
    ensures Trimmed("pc.EXAMPLE.com", "example.com") == "pc"
  {
    hide Trimmed;
    var q, domain := "EXAMPLE.com", "example.com";
    assert SameIgnoringCase(q, domain);
    CutSuffix("pc", q, domain);
    assert "pc.EXAMPLE.com" == "pc" + "." + q;
  }

  lemma CutSuffix(p: string, q: string, domain: string)
    requires domain != "" && SameIgnoringCase(q, domain)
    ensures Trimmed(p + "." + q, domain) == p
  {
    hide Trimmed, SameIgnoringCase;
    TrimmedSuffix(p + "." + q, domain, p);
  }

  /** At most one dot of a name can be followed by the domain. */
  lemma OneDotMatches(name: string, domain: string, i: nat, j: nat)
    requires i < |name| && SameIgnoringCase(name[i + 1..], domain)
    requires j < |name| && SameIgnoringCase(name[j + 1..], domain)
    ensures i == j
  {
  }

  // ---------- sequences of calls ----------

  datatype Call = Call(name: string, host: HostLookup)

  /** The names that a sequence of calls leaves behind, by the contract of `Trim`. */
  function Run(st: State, calls: seq<Call>): seq<string>
    decreases calls
  {
    if calls == [] then [] else
      var domain := DomainAfter(st, calls[0].host);
      [Trimmed(calls[0].name, domain)] + Run(State(false, domain), calls[1..])
  }

  /** The first call of a run decides about the domain; later host names do not matter. */
  lemma FirstCallDecides(calls: seq<Call>)
    requires calls != []
    ensures |Run(State(true, ""), calls)| == |calls|
    ensures forall i :: 0 <= i < |calls| ==>
      Run(State(true, ""), calls)[i] == Trimmed(calls[i].name, DomainOf(calls[0].host))
  {
    hide Trimmed, DomainOf;
    LatchedRun(DomainOf(calls[0].host), calls[1..]);
  }

  lemma {:induction false} LatchedRun(domain: string, calls: seq<Call>)
    ensures |Run(State(false, domain), calls)| == |calls|
    ensures forall i :: 0 <= i < |calls| ==>
      Run(State(false, domain), calls)[i] == Trimmed(calls[i].name, domain)
  {
    if calls != [] {
      LatchedRun(domain, calls[1..]);
    }
  }
}
