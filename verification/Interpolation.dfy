/**
 src/utils/envInterpolation.ts and src/utils/connectionStrings.ts: which
 placeholders are recognised, and what each is replaced by.
 */
module Interpolation {
  import opened Ascii
  import opened Decimals
  import opened Option
  import opened Placeholders
  import opened SecondPass

  datatype Port = Port(containerPort: int, publicPort: Option<int>)
  datatype EnvVar = EnvVar(key: string, value: string)

  datatype ServiceRef = ServiceRef(
    slug: string, internalHostname: Option<string>, subdomain: Option<string>, ports: seq<Port>, envVars: seq<EnvVar>)

  predicate StartsWith(s: string, prefix: string) {
    prefix <= s
  }

  predicate Contains(s: string, part: string) {
    exists i :: 0 <= i <= |s| && part <= s[i..]
  }

  function HostPort(p: Port): string {
    Decimal(if p.publicPort.Some? then p.publicPort.value else p.containerPort)
  }

  /** `Array.find` by key, ignoring case. */
  function FindEnv(vars: seq<EnvVar>, key: string): Option<string> {
    if vars == [] then None
    else if Upper(vars[0].key) == Upper(key) then Some(vars[0].value)
    else FindEnv(vars[1..], key)
  }

  // ---- {{services.<slug>.<property>}} ----

  predicate SlugChar(c: char) {
    Letter(c) || Digit(c) || c == '-'
  }

  predicate PropChar(c: char) {
    Letter(c) || c == '_' || c == '.'
  }

  /** The length of the slug: it runs up to the first character that is not one of its own. */
  function SlugLength(s: string): (n: nat)
    ensures n <= |s|
  {
    if s == "" || !SlugChar(s[0]) then 0 else 1 + SlugLength(s[1..])
  }

  const SERVICES := "services."

  /** The two groups of the pattern, which is matched without regard to case. */
  function Groups(body: string): Option<(string, string)> {
    if |body| < |SERVICES| || Lower(body[..|SERVICES|]) != SERVICES then None
    else
      var rest := body[|SERVICES|..];
      var n := SlugLength(rest);
      if n > 0 && n + 1 < |rest| && rest[n] == '.' && (forall i :: n < i < |rest| ==> PropChar(rest[i]))
      then Some((rest[..n], rest[n + 1..]))
      else None
  }

  lemma {:induction false} SlugEnds(slug: string, rest: string)
    requires forall c :: c in slug ==> SlugChar(c)
    requires rest != "" && !SlugChar(rest[0])
    ensures SlugLength(slug + rest) == |slug|
  {
    if slug == "" {
      assert slug + rest == rest;
    } else {
      assert (slug + rest)[1..] == slug[1..] + rest;
      SlugEnds(slug[1..], rest);
    }
  }

  lemma {:induction false} SlugIsSlug(s: string)
    ensures forall c :: c in s[..SlugLength(s)] ==> SlugChar(c)
  {
    if s == "" || !SlugChar(s[0]) {
    } else {
      SlugIsSlug(s[1..]);
      assert s[..SlugLength(s)] == [s[0]] + s[1..][..SlugLength(s[1..])];
    }
  }

  predicate Slug(s: string) {
    s != "" && forall c :: c in s ==> SlugChar(c)
  }

  predicate PropName(s: string) {
    s != "" && forall c :: c in s ==> PropChar(c)
  }

  predicate HasPrefix(body: string) {
    |body| >= |SERVICES| && Lower(body[..|SERVICES|]) == SERVICES
  }

  lemma GroupsAreRead(body: string, slug: string, prop: string)
    requires HasPrefix(body) && Groups(body) == Some((slug, prop))
    ensures body[|SERVICES|..] == slug + "." + prop && Slug(slug) && PropName(prop)
  {
    var rest := body[|SERVICES|..];
    var n := SlugLength(rest);
    SlugIsSlug(rest);
    assert rest == rest[..n] + "." + rest[n + 1..];
    assert forall i :: 0 <= i < |prop| ==> prop[i] == rest[n + 1 + i];
  }

  lemma GroupsAreFound(body: string, slug: string, prop: string)
    requires HasPrefix(body) && body[|SERVICES|..] == slug + "." + prop && Slug(slug) && PropName(prop)
    ensures Groups(body) == Some((slug, prop))
  {
    var rest := body[|SERVICES|..];
    assert rest == slug + ("." + prop);
    SlugEnds(slug, "." + prop);
    assert rest[..|slug|] == slug && rest[|slug| + 1..] == prop;
    forall i | |slug| < i < |rest|
      ensures PropChar(rest[i])
    {
      assert rest[i] == prop[i - |slug| - 1];
    }
  }

  /** The bodies the pattern accepts, and the groups it reads off them. */
  lemma GroupsMeaning(body: string, slug: string, prop: string)
    ensures Groups(body) == Some((slug, prop)) <==>
            HasPrefix(body) && body[|SERVICES|..] == slug + "." + prop && Slug(slug) && PropName(prop)
  {
    if Groups(body) == Some((slug, prop)) {
      GroupsAreRead(body, slug, prop);
    } else if HasPrefix(body) && body[|SERVICES|..] == slug + "." + prop && Slug(slug) && PropName(prop) {
      GroupsAreFound(body, slug, prop);
    }
  }

  predicate IsServiceRef(body: string) {
    Groups(body).Some?
  }

  /** The replacement callback; `None` leaves the reference as it stands. */
  function Property(svc: ServiceRef, prop: string): Option<string> {
    var host := if svc.internalHostname.Some? then svc.internalHostname else svc.subdomain;
    match prop
    case "host" => host
    case "port" => if svc.ports == [] then None else Some(HostPort(svc.ports[0]))
    case "url" =>
      if host.None? || host.value == "" then None
      else if svc.ports == [] then Some(if Contains(host.value, "://") then host.value else "http://" + host.value)
      else Some("http://" + host.value + ":" + HostPort(svc.ports[0]))
    case _ => if StartsWith(prop, "env.") then FindEnv(svc.envVars, prop[4..]) else None
  }

  function ResolveService(services: map<string, ServiceRef>, body: string): Option<string> {
    match Groups(body)
    case None => None
    case Some((slug, prop)) => if slug in services then Property(services[slug], prop) else None
  }

  function ServiceResolver(services: map<string, ServiceRef>): Resolve {
    body => ResolveService(services, body)
  }

  function InterpolateEnvValue(value: string, services: map<string, ServiceRef>): string {
    Replace(value, IsServiceRef, ServiceResolver(services))
  }

  function ResolveEnvVars(vars: seq<EnvVar>, services: map<string, ServiceRef>): (resolved: seq<EnvVar>)
    ensures |resolved| == |vars|
    ensures forall i :: 0 <= i < |vars| ==>
              && resolved[i].key == vars[i].key
              && resolved[i].value == Render(Read(vars[i].value, IsServiceRef), ServiceResolver(services))
  {
    assert forall i :: 0 <= i < |vars| ==>
             InterpolateEnvValue(vars[i].value, services) ==
             Render(Read(vars[i].value, IsServiceRef), ServiceResolver(services)) by {
      forall i | 0 <= i < |vars| { InterpolationIsRendering(vars[i].value, services); }
    }
    seq(|vars|, i requires 0 <= i < |vars| => vars[i].(value := InterpolateEnvValue(vars[i].value, services)))
  }

  lemma InterpolationIsRendering(value: string, services: map<string, ServiceRef>)
    ensures InterpolateEnvValue(value, services) == Render(Read(value, IsServiceRef), ServiceResolver(services))
  {
    ReadIsReading(value, IsServiceRef);
    ReadingDeterminesReplace(Read(value, IsServiceRef), IsServiceRef, ServiceResolver(services));
  }

  /** A sibling service as it is loaded for `buildServiceMap`. */
  datatype Sibling = Sibling(slug: string, internalHostname: Option<string>, ports: seq<Port>, envVars: seq<EnvVar>)

  function LastWithSlug(siblings: seq<Sibling>, slug: string): Option<ServiceRef> {
    if siblings == [] then None
    else
      var s := siblings[|siblings| - 1];
      if s.slug == slug then Some(ServiceRef(s.slug, s.internalHostname, None, s.ports, s.envVars))
      else LastWithSlug(siblings[..|siblings| - 1], slug)
  }

  /** The last sibling with the slug, and no subdomain. */
  lemma {:induction false} LastWithSlugMeaning(siblings: seq<Sibling>, i: nat)
    requires i < |siblings| && forall j :: i < j < |siblings| ==> siblings[j].slug != siblings[i].slug
    ensures var s := siblings[i];
            LastWithSlug(siblings, s.slug) == Some(ServiceRef(s.slug, s.internalHostname, None, s.ports, s.envVars))
  {
    if i == |siblings| - 1 {
    } else {
      LastWithSlugMeaning(siblings[..|siblings| - 1], i);
    }
  }

  lemma {:induction false} NoneWithSlug(siblings: seq<Sibling>, slug: string)
    requires forall i :: 0 <= i < |siblings| ==> siblings[i].slug != slug
    ensures LastWithSlug(siblings, slug) == None
  {
    if siblings == [] {
    } else {
      NoneWithSlug(siblings[..|siblings| - 1], slug);
    }
  }

  ghost predicate IsServiceMap(services: map<string, ServiceRef>, siblings: seq<Sibling>) {
    forall slug :: LastWithSlug(siblings, slug) == if slug in services then Some(services[slug]) else None
  }

  method BuildServiceMap(siblings: seq<Sibling>) returns (services: map<string, ServiceRef>)
    ensures IsServiceMap(services, siblings)
  {
    services := map[];
    for i := 0 to |siblings|
      invariant IsServiceMap(services, siblings[..i])
    {
      var s := siblings[i];
      assert siblings[..i + 1][..i] == siblings[..i];
      services := services[s.slug := ServiceRef(s.slug, s.internalHostname, None, s.ports, s.envVars)];
    }
    assert siblings[..|siblings|] == siblings;
  }

  /**
   One pass, left to right: whatever reading the value has, the references are
   filled in where they stand, or stay as written, and everything else is kept.
   */
  lemma InterpolationRendersReading(value: string, ps: seq<Piece>, services: map<string, ServiceRef>)
    requires Reading(ps, IsServiceRef) && Text(ps) == value
    ensures ps == Read(value, IsServiceRef)
    ensures InterpolateEnvValue(value, services) == Render(ps, ServiceResolver(services))
  {
    ReadingIsUnique(ps, IsServiceRef);
    ReadingDeterminesReplace(ps, IsServiceRef, ServiceResolver(services));
  }

  /**
   Interpolating twice equals interpolating once exactly when no literal and no
   filled-in value opens a reference that has a value.
   */
  lemma InterpolationIsIdempotentIff(value: string, services: map<string, ServiceRef>)
    ensures var ps, once := Read(value, IsServiceRef), InterpolateEnvValue(value, services);
            var idle := InterpolateEnvValue(once, services) == once;
            var nothingOpens := forall i :: 0 <= i < |ps| ==> !Opens(ps, i, IsServiceRef, ServiceResolver(services));
            && (nothingOpens ==> idle)
            && (AllGood(once, IsServiceRef, Flat(ServiceResolver(services))) ==> (idle <==> nothingOpens))
  {
    TwiceIsOnceIff(value, IsServiceRef, ServiceResolver(services));
  }

  /** In the text of a body, the groups are what stands between the dots. */
  lemma ServiceRefBody(slug: string, prop: string)
    requires Slug(slug) && PropName(prop)
    ensures var body := SERVICES + (slug + "." + prop); Groups(body) == Some((slug, prop)) && BraceFree(body)
  {
    var body := SERVICES + (slug + "." + prop);
    assert body[..|SERVICES|] == SERVICES && body[|SERVICES|..] == slug + "." + prop;
    assert Lower(SERVICES) == SERVICES;
    GroupsMeaning(body, slug, prop);
    assert BraceFree(SERVICES) && BraceFree(".") && BraceFree(slug) && BraceFree(prop);
  }

  function VariableBody(slug: string, key: string): string {
    SERVICES + (slug + "." + ("env." + key))
  }

  function HostBody(slug: string): string {
    SERVICES + (slug + "." + "host")
  }

  lemma VariableValue(services: map<string, ServiceRef>, slug: string, key: string)
    requires slug in services && Slug(slug) && forall c :: c in key ==> PropChar(c)
    ensures var body := VariableBody(slug, key);
            && IsServiceRef(body) && BraceFree(body)
            && ResolveService(services, body) == FindEnv(services[slug].envVars, key)
  {
    ServiceRefBody(slug, "env." + key);
    assert ("env." + key)[4..] == key && ("env." + key)[0] == 'e';
  }

  lemma HostValue(services: map<string, ServiceRef>, slug: string)
    requires slug in services && Slug(slug)
    ensures var body := HostBody(slug);
            && IsServiceRef(body) && BraceFree(body)
            && ResolveService(services, body) == Property(services[slug], "host")
  {
    ServiceRefBody(slug, "host");
  }

  /**
   An instance: for a service with an empty variable, the text
   `{{{services.<slug>.env.<key>}}{services.<slug>.host}}` becomes a reference to
   its host, which a second pass fills in, as it does whenever the service has a
   host other than that very reference.
   */
  lemma EmptyVariableReopens(services: map<string, ServiceRef>, slug: string, key: string)
    requires slug in services && Slug(slug)
    requires (forall c :: c in key ==> PropChar(c)) && FindEnv(services[slug].envVars, key) == Some("")
    ensures var host := Property(services[slug], "host");
            var text := "{" + (Braced(VariableBody(slug, key)) + Headless(HostBody(slug)));
            var once := InterpolateEnvValue(text, services);
            && once == Braced(HostBody(slug))
            && (InterpolateEnvValue(once, services) != once <==> host.Some? && host.value != Braced(HostBody(slug)))
            && (host.Some? ==> InterpolateEnvValue(once, services) == host.value)
  {
    VariableValue(services, slug, key);
    HostValue(services, slug);
    assert !IsServiceRef("");
    EmptyValueReopens(VariableBody(slug, key), HostBody(slug), IsServiceRef, ServiceResolver(services));
  }

  // ---- What each reference becomes ----

  /** The characters of a slug, of a property and of a placeholder's key, by their code points. */
  lemma Alphabets(c: char)
    ensures var letter := 65 <= c as int <= 90 || 97 <= c as int <= 122;
            && (SlugChar(c) <==> letter || 48 <= c as int <= 57 || c as int == 45)
            && (PropChar(c) <==> letter || c as int == 95 || c as int == 46)
            && (KeyChar(c) <==> letter || 48 <= c as int <= 57 || c as int == 95)
  {
  }

  /** The variable at `i` is the first one whose key is `key`, up to case. */
  ghost predicate FirstWithKey(vars: seq<EnvVar>, key: string, i: int) {
    && 0 <= i < |vars| && Upper(vars[i].key) == Upper(key)
    && forall j :: 0 <= j < i ==> Upper(vars[j].key) != Upper(key)
  }

  ghost predicate NoneWithKey(vars: seq<EnvVar>, key: string) {
    forall i :: 0 <= i < |vars| ==> Upper(vars[i].key) != Upper(key)
  }

  lemma {:induction false} FirstIsFound(vars: seq<EnvVar>, key: string, i: nat)
    requires FirstWithKey(vars, key, i)
    ensures FindEnv(vars, key) == Some(vars[i].value)
  {
    if i == 0 {
    } else {
      assert forall j :: 0 <= j < i - 1 ==> vars[1..][j] == vars[j + 1];
      FirstIsFound(vars[1..], key, i - 1);
    }
  }

  lemma {:induction false} NoneIsFound(vars: seq<EnvVar>, key: string)
    requires NoneWithKey(vars, key)
    ensures FindEnv(vars, key) == None
  {
    if vars == [] {
    } else {
      NoneIsFound(vars[1..], key);
    }
  }

  lemma FindEnvMeaning(vars: seq<EnvVar>, key: string)
    ensures NoneWithKey(vars, key) ==> FindEnv(vars, key) == None
    ensures forall i :: FirstWithKey(vars, key, i) ==> FindEnv(vars, key) == Some(vars[i].value)
  {
    if NoneWithKey(vars, key) { NoneIsFound(vars, key); }
    forall i | FirstWithKey(vars, key, i) { FirstIsFound(vars, key, i); }
  }

  /** Within any text a reference becomes what it becomes on its own. */
  lemma ReferenceInText(services: map<string, ServiceRef>, body: string)
    requires IsServiceRef(body) && BraceFree(body)
    ensures Output(body, ServiceResolver(services)) == InterpolateEnvValue(Braced(body), services)
  {
    ReplaceLoneMatch(body, IsServiceRef, ServiceResolver(services));
  }

  lemma Alone(services: map<string, ServiceRef>, slug: string, prop: string)
    requires Slug(slug) && PropName(prop)
    ensures var body := "services." + (slug + "." + prop);
            InterpolateEnvValue(Braced(body), services) ==
            if slug in services && Property(services[slug], prop).Some? then Property(services[slug], prop).value
            else Braced(body)
  {
    var body := "services." + (slug + "." + prop);
    ServiceRefBody(slug, prop);
    ReplaceLoneMatch(body, IsServiceRef, ServiceResolver(services));
  }

  /** A reference to an unknown service, or to anything but host, port, url and variables, stays as written. */
  lemma UnknownStays(services: map<string, ServiceRef>, slug: string, prop: string)
    requires Slug(slug) && PropName(prop)
    requires slug !in services || (prop !in {"host", "port", "url"} && !("env." <= prop))
    ensures var text := "{{" + ("services." + (slug + "." + prop)) + "}}"; InterpolateEnvValue(text, services) == text
  {
    Alone(services, slug, prop);
  }

  lemma HostText(services: map<string, ServiceRef>, slug: string)
    requires Slug(slug) && slug in services
    ensures var svc, text := services[slug], "{{" + ("services." + (slug + "." + "host")) + "}}";
            InterpolateEnvValue(text, services) ==
            if svc.internalHostname.Some? then svc.internalHostname.value
            else if svc.subdomain.Some? then svc.subdomain.value
            else text
  {
    Alone(services, slug, "host");
  }

  lemma PortText(services: map<string, ServiceRef>, slug: string)
    requires Slug(slug) && slug in services
    ensures var svc, text := services[slug], "{{" + ("services." + (slug + "." + "port")) + "}}";
            InterpolateEnvValue(text, services) ==
            if svc.ports == [] then text
            else if svc.ports[0].publicPort.Some? then Decimal(svc.ports[0].publicPort.value)
            else Decimal(svc.ports[0].containerPort)
  {
    Alone(services, slug, "port");
  }

  lemma UrlText(services: map<string, ServiceRef>, slug: string)
    requires Slug(slug) && slug in services
    ensures var svc, text := services[slug], "{{" + ("services." + (slug + "." + "url")) + "}}";
            var host := if svc.internalHostname.Some? then svc.internalHostname else svc.subdomain;
            InterpolateEnvValue(text, services) ==
            if host == None || host == Some("") then text
            else if svc.ports == [] then
              if exists i :: 0 <= i <= |host.value| && "://" <= host.value[i..] then host.value
              else "http://" + host.value
            else if svc.ports[0].publicPort.Some? then
              "http://" + host.value + ":" + Decimal(svc.ports[0].publicPort.value)
            else "http://" + host.value + ":" + Decimal(svc.ports[0].containerPort)
  {
    Alone(services, slug, "url");
  }

  /** A variable: the value of the first one whose key is the same up to case. */
  lemma VariableText(services: map<string, ServiceRef>, slug: string, key: string)
    requires Slug(slug) && slug in services && forall c :: c in key ==> PropChar(c)
    ensures var vars, text := services[slug].envVars, "{{" + ("services." + (slug + "." + ("env." + key))) + "}}";
            && (NoneWithKey(vars, key) ==> InterpolateEnvValue(text, services) == text)
            && (forall i :: FirstWithKey(vars, key, i) ==> InterpolateEnvValue(text, services) == vars[i].value)
  {
    VariableValue(services, slug, key);
    FindEnvMeaning(services[slug].envVars, key);
    ReplaceLoneMatch(VariableBody(slug, key), IsServiceRef, ServiceResolver(services));
  }

  // ---- Variables that cannot be referenced ----

  predicate HasDigit(s: string) {
    exists i :: 0 <= i < |s| && Digit(s[i])
  }

  lemma UpperKeepsDigits(s: string, t: string)
    requires Upper(s) == Upper(t) && HasDigit(s)
    ensures HasDigit(t)
  {
    var i :| 0 <= i < |s| && Digit(s[i]);
    assert Upper(s)[i] == s[i] && Upper(t)[i] == s[i];
    assert Digit(t[i]);
  }

  lemma {:induction false} DigitKeyIsNotFound(before: seq<EnvVar>, v: EnvVar, after: seq<EnvVar>, key: string)
    requires HasDigit(v.key) && !HasDigit(key)
    ensures FindEnv(before + [v] + after, key) == FindEnv(before + after, key)
  {
    if before == [] {
      if Upper(v.key) == Upper(key) { UpperKeepsDigits(v.key, key); }
      assert before + [v] + after == [v] + after && before + after == after;
    } else {
      assert (before + [v] + after)[1..] == before[1..] + [v] + after;
      assert (before + after)[1..] == before[1..] + after;
      DigitKeyIsNotFound(before[1..], v, after, key);
    }
  }

  /**
   The property class has no digits, so a variable whose key has one can be
   taken out of a service without changing any interpolation.
   */
  lemma DigitKeysAreInvisible(value: string, services: map<string, ServiceRef>, slug: string,
                              before: seq<EnvVar>, v: EnvVar, after: seq<EnvVar>)
    requires slug in services && services[slug].envVars == before + [v] + after && HasDigit(v.key)
    ensures InterpolateEnvValue(value, services) ==
            InterpolateEnvValue(value, services[slug := services[slug].(envVars := before + after)])
  {
    var fewer := services[slug := services[slug].(envVars := before + after)];
    forall body | IsServiceRef(body)
      ensures ResolveService(services, body) == ResolveService(fewer, body)
    {
      var (s, prop) := Groups(body).value;
      GroupsMeaning(body, s, prop);
      if s == slug && StartsWith(prop, "env.") {
        assert forall i :: 0 <= i < |prop| ==> prop[i] in prop;
        assert !HasDigit(prop[4..]);
        DigitKeyIsNotFound(before, v, after, prop[4..]);
      }
    }
    ReplaceExtensional(
      value, IsServiceRef, ServiceResolver(services), ServiceResolver(fewer));
  }

  // ---- {{host}}, {{port}}, {{env.KEY}} ----

  datatype Target = Target(slug: string, internalHostname: Option<string>, ports: seq<Port>, envVars: seq<EnvVar>)

  predicate KeyChar(c: char) {
    Letter(c) || Digit(c) || c == '_'
  }

  /** The second group of the pattern, the key of an `env.` placeholder. */
  function EnvKey(body: string): Option<string> {
    if |body| > 4 && Lower(body[..4]) == "env." && (forall i :: 4 <= i < |body| ==> KeyChar(body[i]))
    then Some(body[4..]) else None
  }

  predicate IsPlaceholder(body: string) {
    Lower(body) in {"host", "port"} || EnvKey(body).Some?
  }

  function ResolvePlaceholder(target: Target, body: string): Option<string> {
    if body == "host" then
      Some(if target.internalHostname.Some? then target.internalHostname.value
           else target.slug + "-app.alternatefutures.ai")
    else if body == "port" then (if target.ports == [] then None else Some(HostPort(target.ports[0])))
    else
      match EnvKey(body)
      case Some(key) => FindEnv(target.envVars, key)
      case None => None
  }

  function TargetResolver(target: Target): Resolve {
    body => ResolvePlaceholder(target, body)
  }

  function ResolveValue(template: string, target: Target): string {
    Replace(template, IsPlaceholder, TargetResolver(target))
  }

  lemma KeyPlaceholder(key: string, target: Target)
    requires key != "" && forall c :: c in key ==> KeyChar(c)
    ensures var found := FindEnv(target.envVars, key);
            ResolveValue(Braced("env." + key), target) == if found.Some? then found.value else Braced("env." + key)
  {
    var body := "env." + key;
    assert body[4..] == key && Lower(body[..4]) == "env.";
    assert EnvKey(body) == Some(key) by {
      assert forall i :: 4 <= i < |body| ==> body[i] == key[i - 4] && key[i - 4] in key;
    }
    assert BraceFree(body);
    ReplaceLoneMatch(body, IsPlaceholder, TargetResolver(target));
  }

  /** Any key of letters, digits and `_`, digits included, is looked up by a connection string. */
  lemma ConnectionStringsSeeDigits(key: string, target: Target)
    requires key != "" && forall c :: c in key ==> KeyChar(c)
    ensures var vars, text := target.envVars, "{{" + ("env." + key) + "}}";
            && (NoneWithKey(vars, key) ==> ResolveValue(text, target) == text)
            && (forall i :: FirstWithKey(vars, key, i) ==> ResolveValue(text, target) == vars[i].value)
  {
    KeyPlaceholder(key, target);
    FindEnvMeaning(target.envVars, key);
  }

  /** The bodies that are placeholders: `host`, `port` and `env.` with a key, each in any case. */
  lemma PlaceholderMeaning(body: string)
    ensures IsPlaceholder(body) <==>
            || Lower(body) == "host"
            || Lower(body) == "port"
            || exists key :: key != "" && (forall c :: c in key ==> KeyChar(c)) &&
                             |body| == 4 + |key| && Lower(body[..4]) == "env." && body[4..] == key
  {
    if EnvKey(body).Some? {
      var key := body[4..];
      assert forall i :: 0 <= i < |key| ==> key[i] == body[i + 4];
    }
    if key :| key != "" && (forall c :: c in key ==> KeyChar(c)) &&
              |body| == 4 + |key| && Lower(body[..4]) == "env." && body[4..] == key {
      assert forall i :: 4 <= i < |body| ==> body[i] == key[i - 4] && key[i - 4] in key;
    }
  }

  /** `{{host}}` and `{{port}}` of a connection string; in another case they stay as written. */
  lemma HostAndPortPlaceholders(target: Target, body: string)
    requires Lower(body) in {"host", "port"}
    ensures ResolveValue("{{" + body + "}}", target) ==
            if body == "host" && target.internalHostname.Some? then target.internalHostname.value
            else if body == "host" then target.slug + "-app.alternatefutures.ai"
            else if body == "port" && target.ports != [] && target.ports[0].publicPort.Some? then
              Decimal(target.ports[0].publicPort.value)
            else if body == "port" && target.ports != [] then Decimal(target.ports[0].containerPort)
            else "{{" + body + "}}"
  {
    assert |body| == 4;
    assert BraceFree(body) by {
      assert forall i :: 0 <= i < |body| && body[i] in {'{', '}'} ==> Lower(body)[i] == body[i];
    }
    ReplaceLoneMatch(body, IsPlaceholder, TargetResolver(target));
  }

  lemma ConnectionRendersReading(template: string, ps: seq<Piece>, target: Target)
    requires Reading(ps, IsPlaceholder) && Text(ps) == template
    ensures ps == Read(template, IsPlaceholder)
    ensures ResolveValue(template, target) == Render(ps, TargetResolver(target))
  {
    ReadingIsUnique(ps, IsPlaceholder);
    ReadingDeterminesReplace(ps, IsPlaceholder, TargetResolver(target));
  }

  lemma ConnectionIsIdempotentIff(template: string, target: Target)
    ensures var ps, once := Read(template, IsPlaceholder), ResolveValue(template, target);
            var idle := ResolveValue(once, target) == once;
            var nothingOpens := forall i :: 0 <= i < |ps| ==> !Opens(ps, i, IsPlaceholder, TargetResolver(target));
            && (nothingOpens ==> idle)
            && (AllGood(once, IsPlaceholder, Flat(TargetResolver(target))) ==> (idle <==> nothingOpens))
  {
    TwiceIsOnceIff(template, IsPlaceholder, TargetResolver(target));
  }
}
