/**
  The port table of an interface: breaking a port specification into protocol and endpoint, and
  the table that any sequence of specifications leaves.
*/
module Ports {
  import opened Utils

  const NUL := 0 as char
  const BUFFER_SIZE := 256

  datatype Endpoint = NoEndpoint | Endpoint(text: string)

  datatype Port = Port(protocol: string, endpoint: Endpoint)

  datatype Warning = EndpointMissing | EndpointSyntax | DuplicateProtocol

  /** Where `c` first occurs in `s` at or after `from`; |s| if it does not. */
  function Find(s: string, c: char, from: nat): (i: nat)
    requires from <= |s|
    ensures from <= i <= |s|
    ensures i < |s| ==> s[i] == c
    ensures forall k :: from <= k < i ==> s[k] != c
    decreases |s| - from
  {
    if from == |s| || s[from] == c then from else Find(s, c, from + 1)
  }

  /** A C string. */
  predicate Terminable(s: string) {
    NUL !in s
  }

  // The shapes of a specification

  predicate HasColon(s: string) {
    Find(s, ':', 0) < |s|
  }

  /** What follows the colon. */
  function Rest(s: string): string
    requires HasColon(s)
  {
    s[Find(s, ':', 0) + 1..]
  }

  predicate Bracketed(s: string) {
    HasColon(s) && Rest(s) != [] && Rest(s)[0] == '['
  }

  predicate Closed(s: string) {
    Bracketed(s) && Find(Rest(s), ']', 0) < |Rest(s)|
  }

  /** How a specification is read. */
  function Parse(s: string): Port {
    if !HasColon(s) then
      Port(s, NoEndpoint)
    else
      var protocol := s[..Find(s, ':', 0)];
      if Closed(s) then Port(protocol, Endpoint(Rest(s)[1..Find(Rest(s), ']', 0)]))
      else if Bracketed(s) then Port(s, NoEndpoint)   // the whole specification becomes the protocol
      else Port(protocol, Endpoint(Rest(s)))
  }

  /** Reading, by the shape of what is written: without a colon everything is the protocol; otherwise what comes
      before the first colon is, and what follows is the endpoint, in brackets or not; an opening bracket that is
      not closed spoils the whole. */
  lemma ParseRules(p: string, r: string, s: string)
    ensures ':' !in s ==> Parse(s) == Port(s, NoEndpoint) && Warnings(s) == [EndpointMissing]
    ensures ':' !in p && (r == "" || r[0] != '[') ==>
      Parse(p + ":" + r) == Port(p, Endpoint(r)) && Warnings(p + ":" + r) == [EndpointSyntax]
    ensures ':' !in p && ']' !in r ==>
      && Parse(p + ":[" + r) == Port(p + ":[" + r, NoEndpoint) && Warnings(p + ":[" + r) == [EndpointSyntax]
      && Parse(p + ":[" + r + "]" + s) == Port(p, Endpoint(r))
      && Warnings(p + ":[" + r + "]" + s) == if r == "" then [EndpointMissing] else []
  {
    if ':' !in p {
      ColonFound(p, r);
      if ']' !in r {
        ColonFound(p, "[" + r);
        assert p + ":" + ("[" + r) == p + ":[" + r;
        assert forall k :: 0 <= k < |r| ==> ("[" + r)[k + 1] == r[k];
        PartsFound(Printed(p, r) + s, p, r, s);
        RoundTrip(p, r, s);
      }
    }
  }

  lemma ColonFound(p: string, r: string)
    requires ':' !in p
    ensures var s := p + ":" + r;
            HasColon(s) && Find(s, ':', 0) == |p| && Rest(s) == r && s[..|p|] == p
  {
    var s := p + ":" + r;
    assert s[|p|] == ':' && forall k :: 0 <= k < |p| ==> s[k] == p[k];
  }

  datatype Buffer = ProtocolBuffer | EndpointBuffer

  /** The buffer whose end is passed when a part and its terminator are copied into it, if one is. */
  function Overrun(s: string): Option<Buffer> {
    if HasColon(s) && Find(s, ':', 0) >= BUFFER_SIZE then Some(ProtocolBuffer)
    else if Closed(s) && |Parse(s).endpoint.text| >= BUFFER_SIZE then Some(EndpointBuffer)
    else None
  }

  /** The protocol's buffer is passed exactly if the first colon has 256 characters before it. */
  lemma ProtocolOverrun(s: string)
    ensures Overrun(s) == Some(ProtocolBuffer)
      <==> |s| > BUFFER_SIZE && ':' in s[BUFFER_SIZE..] && ':' !in s[..BUFFER_SIZE]
  {
    var i := Find(s, ':', 0);
    if |s| > BUFFER_SIZE && ':' in s[BUFFER_SIZE..] && ':' !in s[..BUFFER_SIZE] {
      var k :| 0 <= k < |s| - BUFFER_SIZE && s[BUFFER_SIZE..][k] == ':';
      assert s[BUFFER_SIZE + k] == ':';
      assert forall k :: 0 <= k < BUFFER_SIZE ==> s[..BUFFER_SIZE][k] == s[k];
    }
    if Overrun(s) == Some(ProtocolBuffer) {
      assert s[BUFFER_SIZE..][i - BUFFER_SIZE] == ':';
    }
  }

  /** The parts of a closed specification. */
  lemma PartsOf(s: string) returns (p: string, e: string, junk: string)
    requires Closed(s)
    ensures s == Printed(p, e) + junk && ':' !in p && ']' !in e
    ensures |p| == Find(s, ':', 0) && e == Parse(s).endpoint.text
  {
    var i, r := Find(s, ':', 0), Rest(s);
    var j := Find(r, ']', 0);
    p, e, junk := s[..i], r[1..j], r[j + 1..];
    assert Parse(s).endpoint.text == e && s[i] == ':' && r == s[i + 1..] && 0 < j < |r| && r[0] == '[' && r[j] == ']';
    NotBefore(s, ':', 0);
    NotBefore(r, ']', 1);
    hide Parse, Closed, Find, Rest;
    AroundColon(s, i);
    InsideBrackets(r, j);
    Regrouped(p, e, junk);
  }

  lemma NotBefore(s: string, c: char, from: nat)
    requires from <= Find(s, c, 0)
    ensures c !in s[from..Find(s, c, 0)]
  {
    hide Find;
    var i := Find(s, c, 0);
    assert forall k :: 0 <= k < i - from ==> s[from..i][k] == s[from + k];
  }

  lemma AroundColon(s: string, i: nat)
    requires i < |s| && s[i] == ':'
    ensures s == s[..i] + (":" + s[i + 1..])
  {
  }

  lemma InsideBrackets(r: string, j: nat)
    requires 0 < j < |r| && r[0] == '[' && r[j] == ']'
    ensures r == "[" + r[1..j] + "]" + r[j + 1..]
  {
  }

  lemma Regrouped(p: string, e: string, junk: string)
    ensures p + (":" + ("[" + e + "]" + junk)) == Printed(p, e) + junk
  {
  }

  /** Put together again they are found again. */
  lemma PartsFound(s: string, p: string, e: string, junk: string)
    requires s == Printed(p, e) + junk && ':' !in p && ']' !in e
    ensures Closed(s) && Find(s, ':', 0) == |p| && Parse(s).endpoint.text == e
  {
    assert s[|p|] == ':' && forall k :: 0 <= k < |p| ==> s[k] == p[k];
    var r := Rest(s);
    assert r == "[" + e + "]" + junk;
    assert r[|e| + 1] == ']';
    RoundTrip(p, e, junk);
  }

  /** The endpoint's buffer is passed exactly if less comes before the colon and 256 characters or more
      stand between brackets. */
  lemma EndpointOverrun(s: string)
    ensures Overrun(s) == Some(EndpointBuffer) <==> exists p, e, junk :: Overlong(s, p, e, junk)
  {
    if Overrun(s) == Some(EndpointBuffer) {
      var p, e, junk := PartsOf(s);
      assert Overlong(s, p, e, junk);
    }
    if p, e, junk :| Overlong(s, p, e, junk) {
      PartsFound(s, p, e, junk);
    }
  }

  ghost predicate Overlong(s: string, p: string, e: string, junk: string) {
    s == Printed(p, e) + junk && ':' !in p && ']' !in e && |p| < BUFFER_SIZE <= |e|
  }

  /** The shortest ones have 257 and 259 characters. */
  lemma ShortestOverruns(s: string)
    ensures Overrun(s) == Some(ProtocolBuffer) ==> |s| >= 257
    ensures Overrun(s) == Some(EndpointBuffer) ==> |s| >= 259
    ensures Overrun(seq(256, _ => 'a') + ":") == Some(ProtocolBuffer)
    ensures Overrun(Printed("", seq(256, _ => 'a'))) == Some(EndpointBuffer)
  {
    var name := seq(256, _ => 'a');
    ProtocolOverrun(s);
    EndpointOverrun(s);
    ProtocolOverrun(name + ":");
    assert (name + ":")[..256] == name && (name + ":")[256..] == ":";
    EndpointOverrun(Printed("", name));
    assert Printed("", name) + "" == Printed("", name);
    assert Overlong(Printed("", name), "", name, "");
  }

  function Warnings(s: string): seq<Warning> {
    if !HasColon(s) then [EndpointMissing]
    else if !Bracketed(s) || !Closed(s) then [EndpointSyntax]
    else if Parse(s).endpoint.text == "" then [EndpointMissing]
    else []
  }

  // The printed form

  function Printed(p: string, e: string): string {
    p + ":[" + e + "]"
  }

  /**
    A printed specification, with anything behind it, reads back as what was printed exactly
    when the protocol has no colon and the endpoint no closing bracket.
  */
  lemma RoundTrip(p: string, e: string, junk: string)
    ensures Parse(Printed(p, e) + junk) == Port(p, Endpoint(e)) <==> ':' !in p && ']' !in e
  {
    var s := Printed(p, e) + junk;
    var i := Find(s, ':', 0);
    assert s[|p|] == ':';
    assert forall k :: 0 <= k < |p| ==> s[k] == p[k];
    if i < |p| {
      assert p[i] == ':';
      assert |Parse(s).protocol| == i || |Parse(s).protocol| == |s|;
    } else {
      var r := Rest(s);
      assert r == "[" + e + "]" + junk;
      var j := Find(r, ']', 0);
      assert r[|e| + 1] == ']';
      assert ']' in e ==> exists k :: 1 <= k < |e| + 1 && r[k] == ']' by {
        if k :| 0 <= k < |e| && e[k] == ']' {
          assert r[k + 1] == ']';
        }
      }
      if j < |e| + 1 {
        assert e[j - 1] == r[j];
        assert |r[1..j]| < |e|;
      } else {
        assert r[1..j] == e && s[..i] == p;
      }
    }
  }

  // The table

  predicate HasProtocol(ports: seq<Port>, protocol: string) {
    exists i :: 0 <= i < |ports| && ports[i].protocol == protocol
  }

  ghost predicate OnePerProtocol(ports: seq<Port>) {
    forall i, j :: 0 <= i < j < |ports| ==> ports[i].protocol != ports[j].protocol
  }

  /** The entry of a protocol: the first that was given. */
  ghost predicate IsFirst(given: seq<Port>, p: Port) {
    exists i :: 0 <= i < |given| && given[i] == p && !HasProtocol(given[..i], p.protocol)
  }

  function Add(table: seq<Port>, p: Port): seq<Port> {
    if HasProtocol(table, p.protocol) then table else table + [p]
  }

  function Table(given: seq<Port>): seq<Port> {
    if given == [] then [] else Add(Table(given[..|given| - 1]), given[|given| - 1])
  }

  /** The table is a map: each protocol given has one entry, and it is the first one given. */
  lemma {:induction false} FirstWins(given: seq<Port>)
    ensures OnePerProtocol(Table(given))
    ensures forall protocol :: HasProtocol(Table(given), protocol) <==> HasProtocol(given, protocol)
    ensures forall p :: p in Table(given) <==> IsFirst(given, p)
  {
    if given != [] {
      var n := |given| - 1;
      var init, last := given[..n], given[n];
      FirstWins(init);
      forall protocol
        ensures HasProtocol(given, protocol) <==> HasProtocol(init, protocol) || last.protocol == protocol
      {
        AppendProtocol(init, last, protocol);
        assert init + [last] == given;
      }
      forall protocol
        ensures HasProtocol(Table(given), protocol) <==> HasProtocol(given, protocol)
      {
        AppendProtocol(Table(init), last, protocol);
      }
      forall p
        ensures IsFirst(given, p) <==> IsFirst(init, p) || (p == last && !HasProtocol(init, last.protocol))
      {
        FirstOfMore(given, p);
      }
    }
  }

  /** An entry stays where it is, whatever is specified later. */
  lemma {:induction false} EntriesStay(given: seq<Port>, more: seq<Port>)
    ensures Table(given) <= Table(given + more)
    decreases |more|
  {
    if more == [] {
      assert given + more == given;
    } else {
      var n := |more| - 1;
      EntriesStay(given, more[..n]);
      assert (given + more)[..|given| + n] == given + more[..n];
    }
  }

  lemma AppendProtocol(ports: seq<Port>, p: Port, protocol: string)
    ensures HasProtocol(ports + [p], protocol) <==> HasProtocol(ports, protocol) || p.protocol == protocol
  {
    var more := ports + [p];
    if HasProtocol(ports, protocol) {
      var i :| 0 <= i < |ports| && ports[i].protocol == protocol;
      assert more[i].protocol == protocol;
    }
    assert more[|ports|] == p;
  }

  lemma FirstOfMore(given: seq<Port>, p: Port)
    requires given != []
    ensures IsFirst(given, p) <==>
      || IsFirst(given[..|given| - 1], p)
      || (p == given[|given| - 1] && !HasProtocol(given[..|given| - 1], p.protocol))
  {
    var init := given[..|given| - 1];
    forall i | 0 <= i < |init|
      ensures init[i] == given[i] && init[..i] == given[..i]
    {
    }
    if IsFirst(given, p) {
      var i :| 0 <= i < |given| && given[i] == p && !HasProtocol(given[..i], p.protocol);
      assert i < |init| ==> init[i] == p && !HasProtocol(init[..i], p.protocol);
    }
    if IsFirst(init, p) {
      var i :| 0 <= i < |init| && init[i] == p && !HasProtocol(init[..i], p.protocol);
      assert given[i] == p && !HasProtocol(given[..i], p.protocol);
    }
  }

  // The parser

  /** strncpy into a buffer, a terminator behind it, and the string the buffer then holds. */
  method Copy(s: string, n: nat) returns (copy: string)
    requires n <= |s| && n < BUFFER_SIZE && Terminable(s)
    ensures copy == s[..n]
  {
    var buffer := new char[BUFFER_SIZE];
    for i := 0 to n
      invariant buffer[..i] == s[..i]
    {
      buffer[i] := s[i];
    }
    buffer[n] := NUL;
    assert forall i :: 0 <= i < n ==> buffer[i] == buffer[..n][i] == s[i];
    var length := 0;
    while buffer[length] != NUL
      invariant 0 <= length <= n
      decreases n - length
    {
      length := length + 1;
    }
    copy := buffer[..length];
  }

  function Zip(protocols: seq<string>, endpoints: seq<Endpoint>): (ports: seq<Port>)
    requires |protocols| == |endpoints|
    ensures |ports| == |protocols|
    ensures forall i :: 0 <= i < |ports| ==> ports[i] == Port(protocols[i], endpoints[i])
  {
    seq(|protocols|, i requires 0 <= i < |protocols| => Port(protocols[i], endpoints[i]))
  }

  class Interface {
    var protocol: seq<string>
    var endpoints: seq<Endpoint>
    var warnings: seq<Warning>

    ghost predicate Valid()
      reads this
    {
      |protocol| == |endpoints| && OnePerProtocol(Ports())
    }

    ghost function Ports(): seq<Port>
      reads this
      requires |protocol| == |endpoints|
    {
      Zip(protocol, endpoints)
    }

    constructor ()
      ensures Valid() && Ports() == [] && warnings == []
    {
      protocol, endpoints, warnings := [], [], [];
    }

    /** Breaks a specification into protocol and endpoint.  Once the end of a buffer has been passed
        nothing more is known. */
    method Split(port: string) returns (protocolId: string, endpointId: Endpoint, overrun: Option<Buffer>)
      requires Terminable(port)
      modifies `warnings
      ensures overrun == Overrun(port)
      ensures overrun == None ==> Port(protocolId, endpointId) == Parse(port)
      ensures overrun == None ==> warnings == old(warnings) + Warnings(port)
    {
      protocolId, endpointId, overrun := "", NoEndpoint, None;
      var colon := Find(port, ':', 0);
      if colon == |port| {
        warnings := warnings + [EndpointMissing];
        protocolId, endpointId := port, NoEndpoint;
      } else {
        if colon >= BUFFER_SIZE {
          overrun := Some(ProtocolBuffer);
          return;
        }
        protocolId := Copy(port, colon);
        var start := colon + 1;
        if start < |port| && port[start] == '[' {
          start := start + 1;
          var end := Find(port, ']', start);
          FoundInRest(port, start, end);
          if end == |port| {
            warnings := warnings + [EndpointSyntax];
            protocolId, endpointId := port, NoEndpoint;
          } else {
            if end - start >= BUFFER_SIZE {
              overrun := Some(EndpointBuffer);
              return;
            }
            var text := Copy(port[start..], end - start);
            endpointId := Endpoint(text);
            if text == "" {
              warnings := warnings + [EndpointMissing];
            }
          }
        } else {
          endpointId := Endpoint(port[start..]);
          warnings := warnings + [EndpointSyntax];
        }
      }
    }

    /** Searching from the bracket on is searching what follows the colon. */
    lemma FoundInRest(port: string, start: nat, end: nat)
      requires HasColon(port) && start == Find(port, ':', 0) + 2 <= |port|
      requires port[start - 1] == '[' && end == Find(port, ']', start)
      ensures Bracketed(port)
      ensures Closed(port) <==> end < |port|
      ensures Closed(port) ==> port[start..][..end - start] == Parse(port).endpoint.text
    {
      var r := Rest(port);
      assert r == port[start - 1..];
      var j := Find(r, ']', 0);
      assert forall k :: 0 <= k < |r| ==> r[k] == port[k + start - 1];
      if end < |port| {
        assert r[end - start + 1] == ']';
      }
      assert j == end - start + 1;
      assert end < |port| ==> r[1..j] == port[start..][..end - start];
    }

    /** Enters one specification; a protocol that is there keeps its endpoint, with one warning. */
    method ParsePort(port: string) returns (overrun: Option<Buffer>)
      requires Valid() && Terminable(port)
      modifies this
      ensures overrun == Overrun(port)
      ensures Valid()
      ensures overrun == None ==> Ports() == Add(old(Ports()), Parse(port))
      ensures overrun == None ==>
                warnings == old(warnings) + Warnings(port)
                  + (if HasProtocol(old(Ports()), Parse(port).protocol) then [DuplicateProtocol] else [])
    {
      hide Parse, Warnings, Overrun;
      var protocolId, endpointId;
      protocolId, endpointId, overrun := Split(port);
      if overrun != None {
        return;
      }
      ghost var ports, before := Ports(), warnings;
      var found := false;
      for i := 0 to |protocol|
        invariant protocol == old(protocol) && endpoints == old(endpoints)
        invariant Ports() == ports
        invariant found <==> HasProtocol(ports[..i], protocolId)
        invariant warnings == before + if found then [DuplicateProtocol] else []
      {
        assert ports[..i + 1] == ports[..i] + [ports[i]];
        AppendProtocol(ports[..i], ports[i], protocolId);
        if protocol[i] == protocolId {
          assert !found by {
            assert forall k :: 0 <= k < i ==> ports[..i][k] == ports[k];
          }
          found := true;
          warnings := warnings + [DuplicateProtocol];
        }
      }
      assert ports[..|ports|] == ports;
      if !found {
        protocol := protocol + [protocolId];
        endpoints := endpoints + [endpointId];
        assert Ports() == ports + [Port(protocolId, endpointId)];
      }
    }

    /**
      Any sequence of specifications: the table holds each protocol once, and its entry is the
      first that was given, unless one of them passes the end of a buffer.
    */
    method ParseAll(specifications: seq<string>) returns (overrun: Option<Buffer>)
      requires Valid() && Ports() == []
      requires forall s :: s in specifications ==> Terminable(s)
      modifies this
      ensures Valid()
      ensures overrun == None <==> forall s :: s in specifications ==> Overrun(s) == None
      ensures overrun == None ==>
                && Ports() == Table(Parsed(specifications))
                && forall p :: p in Ports() <==> IsFirst(Parsed(specifications), p)
    {
      hide Parse, Overrun, IsFirst, Add, Table, OnePerProtocol, HasProtocol;
      overrun := None;
      NothingGiven();
      assert Parsed(specifications[..0]) == [];
      for i := 0 to |specifications|
        invariant Valid() && Ports() == Table(Parsed(specifications[..i])) && overrun == None
        invariant forall k :: 0 <= k < i ==> Overrun(specifications[k]) == None
      {
        overrun := ParsePort(specifications[i]);
        if overrun != None {
          return;
        }
        OneMoreGiven(specifications, i);
      }
      assert specifications[..|specifications|] == specifications;
      FirstWins(Parsed(specifications));
    }
  }

  lemma NothingGiven()
    ensures Table([]) == []
  {
  }

  lemma OneMoreGiven(specifications: seq<string>, i: nat)
    requires i < |specifications|
    ensures Table(Parsed(specifications[..i + 1])) == Add(Table(Parsed(specifications[..i])), Parse(specifications[i]))
  {
    hide Parse, Add;
    var more := Parsed(specifications[..i + 1]);
    assert more[..i] == Parsed(specifications[..i]);
  }

  function Parsed(specifications: seq<string>): seq<Port> {
    seq(|specifications|, i requires 0 <= i < |specifications| => Parse(specifications[i]))
  }

  /** An entry whose printed form reads back. */
  predicate Printable(p: Port) {
    p.endpoint.Endpoint? && ':' !in p.protocol && ']' !in p.endpoint.text
  }

  function Dump(table: seq<Port>): seq<string>
    requires forall p :: p in table ==> p.endpoint.Endpoint?
  {
    seq(|table|, i requires 0 <= i < |table| => Printed(table[i].protocol, table[i].endpoint.text))
  }

  /** Reading the dump of a table gives the table again, exactly when each entry is printable. */
  lemma DumpRoundTrip(table: seq<Port>)
    requires OnePerProtocol(table) && forall p :: p in table ==> p.endpoint.Endpoint?
    ensures Parsed(Dump(table)) == table <==> forall p :: p in table ==> Printable(p)
    ensures Parsed(Dump(table)) == table ==> Table(Parsed(Dump(table))) == table
  {
    forall i | 0 <= i < |table|
      ensures Parse(Dump(table)[i]) == table[i] <==> Printable(table[i])
    {
      var p := table[i];
      RoundTrip(p.protocol, p.endpoint.text, "");
      assert Printed(p.protocol, p.endpoint.text) + "" == Printed(p.protocol, p.endpoint.text);
    }
    if Parsed(Dump(table)) == table {
      forall i | 0 <= i < |table|
        ensures Printable(table[i])
      {
        assert Parse(Dump(table)[i]) == Parsed(Dump(table))[i] == table[i];
      }
    }
    DistinctStays(table);
  }

  lemma {:induction false} DistinctStays(table: seq<Port>)
    requires OnePerProtocol(table)
    ensures Table(table) == table
  {
    if table != [] {
      var n := |table| - 1;
      DistinctStays(table[..n]);
      assert table[..n] + [table[n]] == table;
    }
  }

  /** Which specifications give a printable entry. */
  lemma PrintableSpecifications(s: string)
    ensures Printable(Parse(s)) <==> HasColon(s) && (Closed(s) || (!Bracketed(s) && ']' !in Rest(s)))
  {
    if HasColon(s) {
      if Closed(s) {
        var r := Rest(s);
        var j := Find(r, ']', 0);
        assert forall k :: 0 <= k < j - 1 ==> r[1..j][k] == r[k + 1];
      }
    }
  }
}
