/** Which fragments a manifest produces: the names a fragment plan is made of. */
module NginxConfig {
  import opened Outcomes
  import opened NginxState
  import opened TextMode

  datatype Gzip = Gzip(enabled: bool, types: seq<string>)

  /** One domain of a manifest.  `settings` are its formatted proxy directives,
      `pathLines` the locations basic auth protects; raw snippets are already
      stripped. */
  datatype Domain = Domain(host: string, settings: seq<string>, gzip: Option<Gzip>, ownService: bool,
                           pathLines: seq<string>, rawVhost: string, rawLocation: string)

  datatype Reason = DuplicateHost | EmptyGzipTypes | RawNotAllowed
  datatype Generated = Fragments(files: Files) | Rejected(reason: Reason)

  const MANAGED_HEADER := "# Managed by platform. Do not edit manually."

  function RenderFragment(lines: seq<string>): string {
    Unlines([MANAGED_HEADER] + lines)
  }

  function GzipLines(gzip: Option<Gzip>): seq<string> {
    match gzip
    case None => []
    case Some(g) => if g.enabled then ["gzip on;", "gzip_vary on;", "gzip_types " + JoinWords(g.types) + ";"]
        else ["gzip off;"]
  }

  function JoinWords(words: seq<string>): string {
    if words == [] then "" else if |words| == 1 then words[0] else words[0] + " " + JoinWords(words[1..])
  }

  function VhostLines(project: string, d: Domain, guard: seq<string>): seq<string> {
    d.settings + GzipLines(d.gzip) + (if d.ownService then guard else []) + d.pathLines
    + if d.rawVhost == "" then [] else ["", "# Raw vhost snippet for allowlisted project: " + project, d.rawVhost]
  }

  function VhostFile(project: string, d: Domain, guard: seq<string>): string {
    RenderFragment(VhostLines(project, d, guard))
  }

  function LocationFile(project: string, d: Domain): string {
    RenderFragment(["# Raw location snippet for allowlisted project: " + project, d.rawLocation])
  }

  lemma {:induction false} UnlinesDistributes(a: seq<string>, b: seq<string>)
    ensures Unlines(a + b) == Unlines(a) + Unlines(b)
  {
    if a == [] {
      assert a + b == b;
    } else {
      assert (a + b)[1..] == a[1..] + b;
      UnlinesDistributes(a[1..], b);
    }
  }

  lemma OneLine(line: string)
    ensures Unlines([line]) == line + "\n"
  {
    assert Unlines([line][1..]) == "";
  }

  lemma ThreeLines(a: string, b: string, c: string)
    ensures Unlines([a, b, c]) == a + "\n" + b + "\n" + c + "\n"
  {
    assert [a, b, c] == [a] + ([b] + [c]);
    UnlinesDistributes([a], [b] + [c]);
    UnlinesDistributes([b], [c]);
    OneLine(a);
    OneLine(b);
    OneLine(c);
  }

  /** What a file says about compression: nothing, the list of types, or off. */
  lemma GzipText(gzip: Option<Gzip>)
    ensures Unlines(GzipLines(gzip)) ==
            match gzip
            case None => ""
            case Some(Gzip(true, types)) =>
              "gzip on;" + "\n" + "gzip_vary on;" + "\n" + ("gzip_types " + JoinWords(types) + ";") + "\n"
            case Some(Gzip(false, _)) => "gzip off;" + "\n"
  {
    match gzip
    case None =>
    case Some(Gzip(true, types)) => ThreeLines("gzip on;", "gzip_vary on;", "gzip_types " + JoinWords(types) + ";");
    case Some(Gzip(false, _)) => OneLine("gzip off;");
  }

  /** The words between single blanks. */
  lemma {:induction false} OneMoreWord(words: seq<string>, word: string)
    requires words != []
    ensures JoinWords(words + [word]) == JoinWords(words) + " " + word
  {
    assert (words + [word])[1..] == words[1..] + [word];
    if |words| > 1 {
      OneMoreWord(words[1..], word);
    } else {
      assert words[1..] + [word] == [word];
    }
  }

  lemma FiveParts(a: seq<string>, b: seq<string>, c: seq<string>, d: seq<string>, e: seq<string>)
    ensures Unlines(a + b + c + d + e) == Unlines(a) + Unlines(b) + Unlines(c) + Unlines(d) + Unlines(e)
  {
    UnlinesDistributes(a + b + c + d, e);
    UnlinesDistributes(a + b + c, d);
    UnlinesDistributes(a + b, c);
    UnlinesDistributes(a, b);
  }

  lemma UnderHeader(lines: seq<string>)
    ensures RenderFragment(lines) == "# Managed by platform. Do not edit manually." + "\n" + Unlines(lines)
  {
    UnlinesDistributes([MANAGED_HEADER], lines);
    OneLine(MANAGED_HEADER);
  }

  /** The host file, part by part: the settings, compression, the metrics guard on
      the web service's own domains and on no other, the guarded paths, and the
      raw snippet under its comment. */
  lemma VhostFileReads(project: string, d: Domain, guard: seq<string>)
    ensures VhostFile(project, d, guard) ==
            "# Managed by platform. Do not edit manually." + "\n"
            + (Unlines(d.settings) + Unlines(GzipLines(d.gzip)) + (if d.ownService then Unlines(guard) else "")
               + Unlines(d.pathLines)
               + if d.rawVhost == "" then ""
                 else "" + "\n" + ("# Raw vhost snippet for allowlisted project: " + project) + "\n" + d.rawVhost
                      + "\n")
  {
    var comment := "# Raw vhost snippet for allowlisted project: " + project;
    UnderHeader(VhostLines(project, d, guard));
    FiveParts(d.settings, GzipLines(d.gzip), if d.ownService then guard else [], d.pathLines,
        if d.rawVhost == "" then [] else ["", comment, d.rawVhost]);
    ThreeLines("", comment, d.rawVhost);
  }

  /** The location file. */
  lemma LocationFileReads(project: string, d: Domain)
    ensures LocationFile(project, d) ==
            "# Managed by platform. Do not edit manually." + "\n"
            + (("# Raw location snippet for allowlisted project: " + project) + "\n" + (d.rawLocation + "\n"))
  {
    var comment := "# Raw location snippet for allowlisted project: " + project;
    UnderHeader([comment] + [d.rawLocation]);
    UnlinesDistributes([comment], [d.rawLocation]);
    OneLine(comment);
    OneLine(d.rawLocation);
    assert [comment] + [d.rawLocation] == [comment, d.rawLocation];
  }

  /** Both files of a domain hold that domain's own lines. */
  ghost predicate Holds(files: Files, project: string, d: Domain, guard: seq<string>) {
    && d.host in files && files[d.host] == VhostFile(project, d, guard)
    && (d.rawLocation != "" ==>
         LocationName(d.host) in files && files[LocationName(d.host)] == LocationFile(project, d))
  }

  /** The manifest schema admits no underscore in a host name. */
  predicate ValidHost(host: string) {
    '_' !in host
  }

  function LocationName(host: string): string {
    host + LOCATION_SUFFIX
  }

  /** A domain the generator takes on its own: gzip has types, and raw snippets
      only with permission. */
  predicate Renderable(d: Domain, rawAllowed: bool) {
    && (d.gzip.Some? && d.gzip.value.enabled ==> d.gzip.value.types != [])
    && (d.rawVhost != "" || d.rawLocation != "" ==> rawAllowed)
  }

  /** The first `n` domains are renderable and have distinct hosts. */
  ghost predicate Acceptable(domains: seq<Domain>, n: nat, rawAllowed: bool)
    requires n <= |domains|
  {
    && (forall i | 0 <= i < n :: Renderable(domains[i], rawAllowed))
    && (forall i, j | 0 <= i < j < n :: domains[i].host != domains[j].host)
  }

  function DomainNames(d: Domain): set<string> {
    {d.host} + if d.rawLocation != "" then {LocationName(d.host)} else {}
  }

  /** The fragment names of these domains: each host, and its location file when
      a raw location is declared. */
  function NamesOf(domains: seq<Domain>): set<string> {
    if domains == [] then {} else NamesOf(domains[..|domains| - 1]) + DomainNames(domains[|domains| - 1])
  }

  /** A host, or the location file of a domain with a raw location. */
  ghost predicate IsNamed(domains: seq<Domain>, n: string) {
    exists d <- domains :: n == d.host || (d.rawLocation != "" && n == d.host + "_location")
  }

  /** The three reasons to refuse a list: a host twice, compression without
      types, and a raw snippet without permission. */
  ghost predicate AsksTooMuch(domains: seq<Domain>, rawAllowed: bool) {
    exists reason :: Justified(domains, rawAllowed, reason)
  }

  ghost predicate Justified(domains: seq<Domain>, rawAllowed: bool, reason: Reason) {
    match reason
    case DuplicateHost => exists i, j | 0 <= i < j < |domains| :: domains[i].host == domains[j].host
    case EmptyGzipTypes => exists d <- domains :: d.gzip.Some? && d.gzip.value.enabled && d.gzip.value.types == []
    case RawNotAllowed => !rawAllowed && exists d <- domains :: d.rawVhost != "" || d.rawLocation != ""
  }

  /** Each reason, as one domain gives it. */
  lemma ReasonsAtOne(domains: seq<Domain>, i: nat, rawAllowed: bool)
    requires i < |domains| && ValidHosts(domains)
    ensures var d := domains[i];
            && (d.host in NamesOf(domains[..i]) ==> Justified(domains, rawAllowed, DuplicateHost))
            && (d.gzip.Some? && d.gzip.value.enabled && d.gzip.value.types == [] ==>
                  Justified(domains, rawAllowed, EmptyGzipTypes))
            && ((d.rawVhost != "" || d.rawLocation != "") && !rawAllowed ==>
                  Justified(domains, rawAllowed, RawNotAllowed))
  {
    assert domains[i] in domains;
    if domains[i].host in NamesOf(domains[..i]) {
      TakenMeansDuplicate(domains[..i], domains[i].host);
      var j :| 0 <= j < i && domains[..i][j].host == domains[i].host;
      assert domains[j].host == domains[i].host;
    }
  }

  lemma AcceptableIff(domains: seq<Domain>, rawAllowed: bool)
    ensures Acceptable(domains, |domains|, rawAllowed) <==> !AsksTooMuch(domains, rawAllowed)
  {
    if Acceptable(domains, |domains|, rawAllowed) {
      assert forall d <- domains :: Renderable(d, rawAllowed);
    } else if i :| 0 <= i < |domains| && !Renderable(domains[i], rawAllowed) {
      assert domains[i] in domains;
      assert Justified(domains, rawAllowed, EmptyGzipTypes) || Justified(domains, rawAllowed, RawNotAllowed);
    } else {
      assert Justified(domains, rawAllowed, DuplicateHost);
    }
  }

  lemma {:induction false} NamesIff(domains: seq<Domain>, n: string)
    ensures n in NamesOf(domains) <==> IsNamed(domains, n)
  {
    if domains != [] {
      var rest, last := domains[..|domains| - 1], domains[|domains| - 1];
      NamesIff(rest, n);
      assert domains == rest + [last];
      assert last in domains;
      assert n in DomainNames(last) <==> n == last.host || (last.rawLocation != "" && n == last.host + "_location");
    }
  }

  ghost predicate ValidHosts(domains: seq<Domain>) {
    forall i | 0 <= i < |domains| :: ValidHost(domains[i].host)
  }

  lemma HostNames(host: string)
    requires ValidHost(host)
    ensures HostOf(host) == host && HostOf(LocationName(host)) == host && LocationName(host) != host
    ensures !ValidHost(LocationName(host))
  {
    var name := LocationName(host);
    assert name[|host|] == '_';
    assert name[|name| - |LOCATION_SUFFIX|..] == LOCATION_SUFFIX;
    assert name[..|name| - |LOCATION_SUFFIX|] == host;
    assert LOCATION_SUFFIX[0] == '_' && forall i | 0 <= i < |host| :: host[i] != '_';
    assert |LOCATION_SUFFIX| <= |host| ==> host[|host| - |LOCATION_SUFFIX|..][0] != '_';
  }

  /** Among valid hosts, a name already taken is a host already seen. */
  lemma {:induction false} TakenMeansDuplicate(domains: seq<Domain>, host: string)
    requires ValidHosts(domains) && ValidHost(host)
    ensures host in NamesOf(domains) <==> exists i | 0 <= i < |domains| :: domains[i].host == host
  {
    if domains != [] {
      var n := |domains| - 1;
      var rest := domains[..n];
      TakenMeansDuplicate(rest, host);
      HostNames(domains[n].host);
      assert domains[n].host == host ==> host in NamesOf(domains);
      assert forall i | 0 <= i < n :: rest[i] == domains[i];
    }
  }

  /** No "<host>_location" ever comes without "<host>". */
  lemma {:induction false} NamesAreClosed(domains: seq<Domain>)
    requires ValidHosts(domains)
    ensures ClosedUnderHosts(NamesOf(domains))
  {
    if domains != [] {
      NamesAreClosed(domains[..|domains| - 1]);
      HostNames(domains[|domains| - 1].host);
    }
  }

  /** One more domain is refused exactly when it is not renderable or its host
      was seen before, and a refused list never becomes acceptable. */
  lemma NextDomain(domains: seq<Domain>, i: nat, rawAllowed: bool)
    requires i < |domains| && ValidHosts(domains) && Acceptable(domains, i, rawAllowed)
    ensures Acceptable(domains, i + 1, rawAllowed) <==>
            Renderable(domains[i], rawAllowed) && domains[i].host !in NamesOf(domains[..i])
    ensures !Acceptable(domains, i + 1, rawAllowed) ==> !Acceptable(domains, |domains|, rawAllowed)
  {
    var seen := domains[..i];
    TakenMeansDuplicate(seen, domains[i].host);
    assert forall j | 0 <= j < i :: seen[j] == domains[j];
  }

  /** It adds its own names, which no domain of another host has. */
  lemma NextNames(domains: seq<Domain>, i: nat)
    requires i < |domains| && ValidHosts(domains)
    ensures NamesOf(domains[..i + 1]) == NamesOf(domains[..i]) + DomainNames(domains[i])
    ensures forall j | 0 <= j < i && domains[j].host != domains[i].host ::
            DomainNames(domains[j]) !! DomainNames(domains[i])
  {
    assert domains[..i + 1][..i] == domains[..i];
    forall j | 0 <= j < i && domains[j].host != domains[i].host
      ensures DomainNames(domains[j]) !! DomainNames(domains[i])
    {
      NamesApart(domains[j], domains[i]);
    }
  }

  lemma NamesApart(a: Domain, b: Domain)
    requires ValidHost(a.host) && ValidHost(b.host) && a.host != b.host
    ensures DomainNames(a) !! DomainNames(b)
  {
    HostNames(a.host);
    HostNames(b.host);
  }

  lemma SeenHostsDiffer(domains: seq<Domain>, i: nat)
    requires i < |domains| && ValidHosts(domains) && domains[i].host !in NamesOf(domains[..i])
    ensures forall j | 0 <= j < i :: domains[j].host != domains[i].host
  {
    TakenMeansDuplicate(domains[..i], domains[i].host);
    assert forall j | 0 <= j < i :: domains[..i][j] == domains[j];
  }

  /** Domains whose names the next one does not share keep their files. */
  lemma EarlierStay(files: Files, files': Files, project: string, domains: seq<Domain>, i: nat, guard: seq<string>)
    requires i < |domains| && forall j | 0 <= j < i :: Holds(files, project, domains[j], guard)
    requires forall j | 0 <= j < i :: DomainNames(domains[j]) !! DomainNames(domains[i])
    requires forall n <- files | n !in DomainNames(domains[i]) :: n in files' && files'[n] == files[n]
    ensures forall j | 0 <= j < i :: Holds(files', project, domains[j], guard)
  {
    forall j | 0 <= j < i
      ensures Holds(files', project, domains[j], guard)
    {
      assert domains[j].host in DomainNames(domains[j]);
      assert domains[j].rawLocation != "" ==> LocationName(domains[j].host) in DomainNames(domains[j]);
    }
  }

  /** The file or files of one domain, put into the dictionary. */
  method AddDomain(fragments: Files, project: string, d: Domain, guard: seq<string>) returns (fragments': Files)
    ensures fragments'.Keys == fragments.Keys + DomainNames(d)
    ensures Holds(fragments', project, d, guard)
    ensures forall n <- fragments | n !in DomainNames(d) :: fragments'[n] == fragments[n]
  {
    assert |LocationName(d.host)| > |d.host|;
    fragments' := fragments[d.host := VhostFile(project, d, guard)];
    if d.rawLocation != "" {
      fragments' := fragments'[LocationName(d.host) := LocationFile(project, d)];
    }
  }

  /** Accepts exactly the acceptable domain lists, and then names exactly their
      files, each holding that domain's own lines. */
  method GenerateVhostFragments(project: string, domains: seq<Domain>, rawAllowed: bool, guard: seq<string>)
    returns (r: Generated)
    requires ValidHosts(domains)
    ensures r.Fragments? <==> Acceptable(domains, |domains|, rawAllowed)
    ensures r.Fragments? ==> r.files.Keys == NamesOf(domains)
    ensures r.Rejected? <==> AsksTooMuch(domains, rawAllowed)
    ensures r.Rejected? ==> Justified(domains, rawAllowed, r.reason)
    ensures r.Fragments? ==> forall n :: n in r.files <==> IsNamed(domains, n)
    ensures r.Fragments? ==> forall i | 0 <= i < |domains| :: Holds(r.files, project, domains[i], guard)
  {
    AcceptableIff(domains, rawAllowed);
    var fragments: Files := map[];
    var i := 0;
    while i < |domains|
      invariant 0 <= i <= |domains|
      invariant Acceptable(domains, i, rawAllowed)
      invariant fragments.Keys == NamesOf(domains[..i])
      invariant forall j | 0 <= j < i :: Holds(fragments, project, domains[j], guard)
    {
      var d := domains[i];
      NextDomain(domains, i, rawAllowed);
      ReasonsAtOne(domains, i, rawAllowed);
      NextNames(domains, i);
      if d.host in fragments {
        return Rejected(DuplicateHost);
      }
      if d.gzip.Some? && d.gzip.value.enabled && d.gzip.value.types == [] {
        return Rejected(EmptyGzipTypes);
      }
      if (d.rawVhost != "" || d.rawLocation != "") && !rawAllowed {
        return Rejected(RawNotAllowed);
      }
      SeenHostsDiffer(domains, i);
      ghost var before := fragments;
      fragments := AddDomain(fragments, project, d, guard);
      EarlierStay(before, fragments, project, domains, i, guard);
      i := i + 1;
    }
    assert domains[..i] == domains;
    r := Fragments(fragments);
    forall n
      ensures n in NamesOf(domains) <==> IsNamed(domains, n)
    {
      NamesIff(domains, n);
    }
  }
}
