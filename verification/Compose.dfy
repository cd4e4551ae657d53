/**
 src/templates/compose.ts: the docker-compose printer's escaper and its port
 mappings and volumes; and the firewall ports that src/resolvers/spheron.ts
 opens for the same service.
 */
module Compose {
  import opened Option

  // ---- escapeYamlString ----

  /** `s.replace(/c/g, sub)`. */
  function ReplaceChar(s: string, c: char, sub: string): string {
    if s == "" then "" else (if s[0] == c then sub else [s[0]]) + ReplaceChar(s[1..], c, sub)
  }

  function EscapeYamlString(s: string): string {
    ReplaceChar(ReplaceChar(ReplaceChar(s, '\\', "\\\\"), '"', "\\\""), '\n', "\\n")
  }

  function EscapeChar(c: char): string {
    match c
    case '\\' => "\\\\"
    case '"' => "\\\""
    case '\n' => "\\n"
    case _ => [c]
  }

  function EscapeEach(s: string): string {
    if s == "" then "" else EscapeChar(s[0]) + EscapeEach(s[1..])
  }

  lemma {:induction false} ReplaceCharConcat(a: string, b: string, c: char, sub: string)
    ensures ReplaceChar(a + b, c, sub) == ReplaceChar(a, c, sub) + ReplaceChar(b, c, sub)
  {
    if a == "" {
      assert a + b == b;
    } else {
      assert (a + b)[1..] == a[1..] + b;
      ReplaceCharConcat(a[1..], b, c, sub);
    }
  }

  lemma ReplaceOne(a: char, c: char, sub: string)
    ensures ReplaceChar([a], c, sub) == if a == c then sub else [a]
  {
  }

  lemma ReplaceNeither(a: char, b: char, c: char, sub: string)
    requires a != c && b != c
    ensures ReplaceChar([a, b], c, sub) == [a, b]
  {
    ReplaceCharConcat([a], [b], c, sub);
    ReplaceOne(a, c, sub);
    ReplaceOne(b, c, sub);
    assert [a, b] == [a] + [b];
  }

  lemma EscapeOneChar(c: char)
    ensures EscapeYamlString([c]) == EscapeChar(c)
  {
    ReplaceOne(c, '\\', "\\\\");
    ReplaceOne(c, '"', "\\\"");
    ReplaceOne(c, '\n', "\\n");
    ReplaceNeither('\\', '\\', '"', "\\\"");
    ReplaceNeither('\\', '\\', '\n', "\\n");
    ReplaceNeither('\\', '"', '\n', "\\n");
  }

  /** The three replacements, in this order, are one substitution character by character. */
  lemma {:induction false} ThreeReplacesAreOne(s: string)
    ensures EscapeYamlString(s) == EscapeEach(s)
  {
    if s == "" {
    } else {
      EscapeOneChar(s[0]);
      ThreeReplacesAreOne(s[1..]);
      assert s == [s[0]] + s[1..];
      var slashed := ReplaceChar(s, '\\', "\\\\");
      var head, tail := ReplaceChar([s[0]], '\\', "\\\\"), ReplaceChar(s[1..], '\\', "\\\\");
      ReplaceCharConcat([s[0]], s[1..], '\\', "\\\\");
      ReplaceCharConcat(head, tail, '"', "\\\"");
      ReplaceCharConcat(ReplaceChar(head, '"', "\\\""), ReplaceChar(tail, '"', "\\\""), '\n', "\\n");
    }
  }

  /**
   Reading a double-quoted scalar (sections 5.7 and 7.3.1 of YAML 1.2.2), from
   behind its opening quote: its value, and the text after its closing quote.
   Escapes other than these three, and raw line breaks, are not read.
   */
  function ReadQuoted(s: string): Option<(string, string)> {
    if s == "" || s[0] == '\n' then None
    else if s[0] == '"' then Some(("", s[1..]))
    else if s[0] == '\\' then
      if |s| == 1 then None
      else
        match s[1]
        case '\\' => Prepend('\\', ReadQuoted(s[2..]))
        case '"' => Prepend('"', ReadQuoted(s[2..]))
        case 'n' => Prepend('\n', ReadQuoted(s[2..]))
        case _ => None
    else Prepend(s[0], ReadQuoted(s[1..]))
  }

  function Prepend(c: char, r: Option<(string, string)>): Option<(string, string)> {
    match r
    case None => None
    case Some((value, rest)) => Some(([c] + value, rest))
  }

  lemma ReadEscaped(c: char, tail: string)
    ensures ReadQuoted(EscapeChar(c) + tail) == Prepend(c, ReadQuoted(tail))
  {
  }

  /** An escaped text between quotes is read back as that text, and ends where it was closed. */
  lemma {:induction false} EscapeRoundTrip(s: string, rest: string)
    ensures ReadQuoted(EscapeYamlString(s) + "\"" + rest) == Some((s, rest))
  {
    ThreeReplacesAreOne(s);
    if s == "" {
      assert EscapeEach(s) + "\"" + rest == "\"" + rest;
    } else {
      EscapeRoundTrip(s[1..], rest);
      ThreeReplacesAreOne(s[1..]);
      var tail := EscapeEach(s[1..]) + "\"" + rest;
      assert EscapeEach(s) + "\"" + rest == EscapeChar(s[0]) + tail;
      ReadEscaped(s[0], tail);
      assert [s[0]] + s[1..] == s;
    }
  }

  // ---- Ports ----

  datatype Port = Port(containerPort: int, publicPort: Option<int>)

  /** What `generateComposeFromService` and `deployToSpheron` read of a raw service. */
  datatype RawService = RawService(ports: seq<Port>, containerPort: Option<int>, isGithubBuild: bool)

  datatype Mapping = Mapping(host: int, container: int)

  function DefaultPort(s: RawService): int {
    if s.isGithubBuild then 3000 else 80
  }

  function PublicMappings(ports: seq<Port>): seq<Mapping> {
    if ports == [] then []
    else
      var p := ports[|ports| - 1];
      PublicMappings(ports[..|ports| - 1]) +
      if p.publicPort.Some? then [Mapping(p.publicPort.value, p.containerPort)] else []
  }

  function FallbackPort(s: RawService): int {
    if |s.ports| > 0 then s.ports[0].containerPort
    else if s.containerPort.Some? then s.containerPort.value
    else DefaultPort(s)
  }

  /** The `ports:` entries of the printed service. */
  function Mappings(s: RawService): seq<Mapping> {
    if PublicMappings(s.ports) != [] then PublicMappings(s.ports)
    else [Mapping(FallbackPort(s), FallbackPort(s))]
  }

  method PortMappings(s: RawService) returns (mappings: seq<Mapping>)
    ensures mappings == Mappings(s)
  {
    mappings := [];
    for i := 0 to |s.ports|
      invariant mappings == PublicMappings(s.ports[..i])
    {
      assert s.ports[..i + 1][..i] == s.ports[..i];
      if s.ports[i].publicPort.Some? {
        mappings := mappings + [Mapping(s.ports[i].publicPort.value, s.ports[i].containerPort)];
      }
    }
    assert s.ports[..|s.ports|] == s.ports;
    if |mappings| == 0 {
      var fallback :=
        if |s.ports| > 0 then s.ports[0].containerPort
        else if s.containerPort.Some? then s.containerPort.value
        else DefaultPort(s);
      mappings := [Mapping(fallback, fallback)];
    }
  }

  function HostPort(p: Port): int {
    if p.publicPort.Some? then p.publicPort.value else p.containerPort
  }

  function PositiveHostPorts(ports: seq<Port>): seq<int> {
    if ports == [] then []
    else
      var hostPort := HostPort(ports[|ports| - 1]);
      PositiveHostPorts(ports[..|ports| - 1]) + if hostPort > 0 then [hostPort] else []
  }

  /** The ports the firewall opens. */
  function Exposed(s: RawService): seq<int> {
    if PositiveHostPorts(s.ports) != [] then PositiveHostPorts(s.ports)
    else if s.containerPort.Some? && s.containerPort.value != 0 then [s.containerPort.value]
    else [DefaultPort(s)]
  }

  method ExposePorts(s: RawService) returns (exposed: seq<int>)
    ensures exposed == Exposed(s)
  {
    exposed := [];
    for i := 0 to |s.ports|
      invariant exposed == PositiveHostPorts(s.ports[..i])
    {
      assert s.ports[..i + 1][..i] == s.ports[..i];
      var hostPort := HostPort(s.ports[i]);
      if hostPort > 0 {
        exposed := exposed + [hostPort];
      }
    }
    assert s.ports[..|s.ports|] == s.ports;
    if |exposed| == 0 && s.containerPort.Some? && s.containerPort.value != 0 {
      exposed := [s.containerPort.value];
    }
    if |exposed| == 0 {
      exposed := [DefaultPort(s)];
    }
  }

  lemma {:induction false} PublicHosts(ports: seq<Port>, h: int)
    ensures (exists m :: m in PublicMappings(ports) && m.host == h) <==>
            (exists p :: p in ports && p.publicPort == Some(h))
  {
    if ports == [] {
    } else {
      var n := |ports| - 1;
      PublicHosts(ports[..n], h);
      assert ports == ports[..n] + [ports[n]];
      if ports[n].publicPort == Some(h) {
        assert Mapping(h, ports[n].containerPort) in PublicMappings(ports);
      }
    }
  }

  lemma {:induction false} PositiveHosts(ports: seq<Port>, h: int)
    ensures h in PositiveHostPorts(ports) <==> h > 0 && exists p :: p in ports && HostPort(p) == h
  {
    if ports == [] {
    } else {
      var n := |ports| - 1;
      PositiveHosts(ports[..n], h);
      assert ports == ports[..n] + [ports[n]];
    }
  }

  lemma PublicPortIsMapped(ports: seq<Port>, p: Port)
    requires p in ports
    ensures p.publicPort.Some? ==> PublicMappings(ports) != []
  {
  }

  // ---- Each entry and its port ----

  /** A port is published if and only if it is public, to its own container port. */
  lemma OnePort(p: Port)
    ensures PublicMappings([p]) == if p.publicPort.Some? then [Mapping(p.publicPort.value, p.containerPort)] else []
    ensures PositiveHostPorts([p]) ==
            var h := if p.publicPort.Some? then p.publicPort.value else p.containerPort;
            if h > 0 then [h] else []
  {
    assert [p][..0] == [];
  }

  /** Both lists go port by port, in the order of the ports. */
  lemma {:induction false} PortByPort(a: seq<Port>, b: seq<Port>)
    ensures PublicMappings(a + b) == PublicMappings(a) + PublicMappings(b)
    ensures PositiveHostPorts(a + b) == PositiveHostPorts(a) + PositiveHostPorts(b)
  {
    if b == [] {
      assert a + b == a;
    } else {
      var init := b[..|b| - 1];
      assert (a + b)[..|a + b| - 1] == a + init;
      PortByPort(a, init);
    }
  }

  lemma {:induction false} NothingPublished(ports: seq<Port>)
    ensures PublicMappings(ports) == [] <==> forall p :: p in ports ==> p.publicPort.None?
    ensures PositiveHostPorts(ports) == [] <==>
            forall p :: p in ports ==> (if p.publicPort.Some? then p.publicPort.value else p.containerPort) <= 0
  {
    if ports == [] {
    } else {
      NothingPublished(ports[..|ports| - 1]);
      assert ports == ports[..|ports| - 1] + [ports[|ports| - 1]];
    }
  }

  /** With no public port one port is mapped to itself: the first one, else the container port, else 3000 or 80. */
  lemma MappingFallback(s: RawService)
    ensures (exists p :: p in s.ports && p.publicPort.Some?) ==> Mappings(s) == PublicMappings(s.ports)
    ensures (forall p :: p in s.ports ==> p.publicPort.None?) ==>
              Mappings(s) ==
              if |s.ports| > 0 then [Mapping(s.ports[0].containerPort, s.ports[0].containerPort)]
              else if s.containerPort.Some? then [Mapping(s.containerPort.value, s.containerPort.value)]
              else if s.isGithubBuild then [Mapping(3000, 3000)]
              else [Mapping(80, 80)]
  {
    NothingPublished(s.ports);
  }

  /** With no positive host port one port is opened: a container port that is not 0, else 3000 or 80. */
  lemma ExposedFallback(s: RawService)
    ensures PositiveHostPorts(s.ports) != [] ==> Exposed(s) == PositiveHostPorts(s.ports)
    ensures (forall p :: p in s.ports ==>
               (if p.publicPort.Some? then p.publicPort.value else p.containerPort) <= 0) ==>
              Exposed(s) ==
              if s.containerPort.Some? && s.containerPort.value != 0 then [s.containerPort.value]
              else if s.isGithubBuild then [3000]
              else [80]
  {
    NothingPublished(s.ports);
  }

  /** Docker binds host port `h`. */
  ghost predicate Bound(s: RawService, h: int) {
    exists m :: m in Mappings(s) && m.host == h
  }

  /** A positive host port that compose binds is opened in the firewall. */
  lemma PositiveBoundIsExposed(s: RawService, h: int)
    requires Bound(s, h) && h > 0
    ensures h in Exposed(s)
  {
    PublicHosts(s.ports, h);
    PositiveHosts(s.ports, h);
    if PublicMappings(s.ports) != [] {
      var p :| p in s.ports && p.publicPort == Some(h);
      assert HostPort(p) == h;
    } else if |s.ports| > 0 {
      var p := s.ports[0];
      assert p in s.ports;
      PublicPortIsMapped(s.ports, p);
      assert HostPort(p) == h;
    }
  }

  /**
   For port numbers that are not negative, every host port that compose binds
   is opened in the firewall exactly when all of them are positive.
   */
  lemma BoundPortsAreOpenIff(s: RawService)
    requires forall p :: p in s.ports ==> p.containerPort >= 0 && (p.publicPort.Some? ==> p.publicPort.value >= 0)
    requires s.containerPort.Some? ==> s.containerPort.value >= 0
    ensures (forall h :: Bound(s, h) ==> h in Exposed(s)) <==> forall h :: Bound(s, h) ==> h > 0
  {
    forall h | Bound(s, h)
      ensures h in Exposed(s) <==> h > 0
    {
      PositiveHosts(s.ports, h);
      if h > 0 { PositiveBoundIsExposed(s, h); }
    }
  }

  // ---- Volumes ----

  datatype Volume = Volume(name: string, mountPath: string)

  const TAPPD := "/var/run/tappd.sock"

  /** VOLUME_NAME_RE of src/services/akash/orchestrator.ts, which lets every volume through. */
  predicate VolumeName(name: string) {
    && 1 <= |name| <= 31 && 'a' <= name[0] <= 'z'
    && forall c :: c in name ==> 'a' <= c <= 'z' || '0' <= c <= '9' || c == '-'
  }

  /** The entries of the service's `volumes:` block. */
  function Mounts(phala: bool, volumes: seq<Volume>): seq<string> {
    if volumes == [] then (if phala then [TAPPD + (":" + TAPPD)] else [])
    else
      var v := volumes[|volumes| - 1];
      Mounts(phala, volumes[..|volumes| - 1]) + [v.name + (":" + v.mountPath)]
  }

  /** The keys of the top-level `volumes:` block. */
  function Declared(volumes: seq<Volume>): seq<string> {
    seq(|volumes|, i requires 0 <= i < |volumes| => volumes[i].name)
  }

  /** The entry of each volume: the socket comes first on Phala, then the volumes in order. */
  lemma {:induction false} MountAt(phala: bool, volumes: seq<Volume>, i: nat)
    requires i < |volumes|
    ensures var first := if phala then 1 else 0;
            && |Mounts(phala, volumes)| == first + |volumes|
            && (phala ==> Mounts(phala, volumes)[0] == "/var/run/tappd.sock:/var/run/tappd.sock")
            && Mounts(phala, volumes)[first + i] == volumes[i].name + (":" + volumes[i].mountPath)
  {
    var n := |volumes| - 1;
    MountCount(phala, volumes[..n]);
    if i == n {
    } else {
      MountAt(phala, volumes[..n], i);
    }
  }

  lemma {:induction false} MountCount(phala: bool, volumes: seq<Volume>)
    ensures |Mounts(phala, volumes)| == |volumes| + if phala then 1 else 0
    ensures phala ==> Mounts(phala, volumes)[0] == "/var/run/tappd.sock:/var/run/tappd.sock"
  {
    if volumes == [] {
      assert TAPPD + (":" + TAPPD) == "/var/run/tappd.sock:/var/run/tappd.sock";
    } else {
      MountCount(phala, volumes[..|volumes| - 1]);
    }
  }

  method VolumeMounts(phala: bool, volumes: seq<Volume>) returns (mounts: seq<string>)
    ensures mounts == Mounts(phala, volumes)
  {
    mounts := if phala then [TAPPD + (":" + TAPPD)] else [];
    for i := 0 to |volumes|
      invariant mounts == Mounts(phala, volumes[..i])
    {
      assert volumes[..i + 1][..i] == volumes[..i];
      mounts := mounts + [volumes[i].name + (":" + volumes[i].mountPath)];
    }
    assert volumes[..|volumes|] == volumes;
  }

  /** What Docker Compose mounts: the part of an entry before its first colon. */
  function Source(mount: string): string {
    if mount == "" || mount[0] == ':' then "" else [mount[0]] + Source(mount[1..])
  }

  /** A source that is not a path is the name of a volume, which must be declared. */
  predicate IsNamed(source: string) {
    source != "" && source[0] !in {'/', '.', '~'}
  }

  lemma {:induction false} SourceOfMount(source: string, path: string)
    requires ':' !in source
    ensures Source(source + (":" + path)) == source
  {
    if source == "" {
      assert source + (":" + path) == ":" + path;
    } else {
      assert (source + (":" + path))[1..] == source[1..] + (":" + path);
      SourceOfMount(source[1..], path);
    }
  }

  /** A volume is mounted by name exactly when it is declared, for all volumes with accepted names. */
  lemma {:induction false} MountedIffDeclared(phala: bool, volumes: seq<Volume>, name: string)
    requires forall v :: v in volumes ==> VolumeName(v.name)
    ensures name in Declared(volumes) <==> exists m :: m in Mounts(phala, volumes) && Source(m) == name && IsNamed(name)
  {
    if volumes == [] {
      SourceOfMount(TAPPD, TAPPD);
    } else {
      var n := |volumes| - 1;
      var v, mount := volumes[n], volumes[n].name + (":" + volumes[n].mountPath);
      MountedIffDeclared(phala, volumes[..n], name);
      SourceOfMount(v.name, v.mountPath);
      assert Declared(volumes) == Declared(volumes[..n]) + [v.name];
      assert mount in Mounts(phala, volumes);
    }
  }
}
