/** Which forwarded entry names the client (specivo/core/client_ip.py). The text of an
    address is read by a function parameter, `ipaddress`'s. */
module ClientIp {
  import opened Wrappers
  import opened Sequences

  // -------------------------------------------------------------------------
  // Strings
  // -------------------------------------------------------------------------

  /** What `strip` removes, among the Latin-1 characters a header can hold. */
  predicate IsBlank(c: char) {
    c == ' ' || '\t' <= c <= '\r' || '\U{1c}' <= c <= '\U{1f}' || c == '\U{85}' || c == '\U{a0}'
  }

  /** `s.split(",")`. */
  function Split(s: string): (parts: seq<string>)
    ensures |parts| > 0
  {
    if s == "" then [""]
    else
      var rest := Split(s[1..]);
      if s[0] == ',' then [""] + rest else [[s[0]] + rest[0]] + rest[1..]
  }

  function TrimLeft(s: string): string {
    if s != "" && IsBlank(s[0]) then TrimLeft(s[1..]) else s
  }

  function TrimRight(s: string): string {
    if s != "" && IsBlank(s[|s| - 1]) then TrimRight(s[..|s| - 1]) else s
  }

  /** `s.strip()`. */
  function Strip(s: string): string { TrimRight(TrimLeft(s)) }

  /** The stripped parts that are not empty. */
  function NonBlank(parts: seq<string>): seq<string> {
    if parts == [] then [] else EntryIn(parts[0]) + NonBlank(parts[1..])
  }

  function EntryIn(part: string): seq<string> { if Strip(part) != "" then [Strip(part)] else [] }

  function EntriesOf(forwardedFor: string): seq<string> { NonBlank(Split(forwardedFor)) }

  /** `", ".join(v for v in values if v)`. */
  function Joined(values: seq<string>): string {
    if values == [] then ""
    else
      var before, last := Joined(values[..|values| - 1]), values[|values| - 1];
      if last == "" then before else if before == "" then last else before + ", " + last
  }

  /** `_forwarded_for`. */
  function ForwardedFor(values: seq<string>): Option<string> {
    if Joined(values) == "" then None else Some(Joined(values))
  }

  // -------------------------------------------------------------------------
  // Selection
  // -------------------------------------------------------------------------

  function Max(a: int, b: int): int { if a < b then b else a }

  function Chosen(entries: seq<string>, hops: int): string
    requires entries != []
  {
    entries[Max(0, |entries| - Max(1, hops))]
  }

  /** The text `_parse` reads as an address: a port or brackets are removed. */
  function HostOf(text: string): string {
    var value := Strip(text);
    if value != "" && value[0] == '[' then UpTo(value[1..], ']')
    else if Count(value, ':') == 1 then UpTo(value, ':')
    else value
  }

  /** `s.partition(c)[0]`. */
  function UpTo(s: string, c: char): string {
    if s == "" || s[0] == c then "" else [s[0]] + UpTo(s[1..], c)
  }

  function Count(s: string, c: char): nat {
    if s == "" then 0 else (if s[0] == c then 1 else 0) + Count(s[1..], c)
  }

  /** `resolve_client_ip`: `address` reads an address and writes it back in its normal
      form, `trusted` says whether a trusted network holds it. */
  function Resolve(peer: Option<string>, forwardedFor: Option<string>, anyTrusted: bool, hops: int,
                   address: string -> Option<string>, trusted: string -> bool): Option<string>
  {
    if peer.GetOr("") == "" then None
    else if forwardedFor.GetOr("") == "" || !anyTrusted then peer
    else
      var peerAddress := address(HostOf(peer.value));
      if peerAddress.None? || !trusted(peerAddress.value) then peer
      else
        var entries := EntriesOf(forwardedFor.value);
        if entries == [] then peer
        else
          var chosen := address(HostOf(Chosen(entries, hops)));
          if chosen.Some? then chosen else peer
  }

  // -------------------------------------------------------------------------
  // Header lines join into one list
  // -------------------------------------------------------------------------

  lemma {:induction false} NonBlankConcat(a: seq<string>, b: seq<string>)
    ensures NonBlank(a + b) == NonBlank(a) + NonBlank(b)
  {
    if a == [] {
      assert a + b == b;
    } else {
      HeadAndTail(a, b);
      NonBlankConcat(a[1..], b);
      Associative(EntryIn(a[0]), NonBlank(a[1..]), NonBlank(b));
    }
  }

  lemma SplitCons(c: char, rest: string)
    ensures Split([c] + rest) == if c == ',' then [""] + Split(rest) else [[c] + Split(rest)[0]] + Split(rest)[1..]
  {
    assert ([c] + rest)[1..] == rest;
  }

  /** A comma separates what is left of it from what is right. */
  lemma {:induction false} SplitAtComma(a: string, b: string)
    ensures Split(a + "," + b) == Split(a) + Split(b)
    decreases |a|
  {
    if a == "" {
      SplitCons(',', b);
      assert a + "," + b == [','] + b;
    } else {
      var c, rest := a[0], a[1..];
      SplitAtComma(rest, b);
      SplitCons(c, rest);
      SplitCons(c, rest + "," + b);
      assert a == [c] + rest && a + "," + b == [c] + (rest + "," + b);
      PrependToFirst(c, Split(rest), Split(b));
    }
  }

  lemma PrependToFirst(c: char, x: seq<string>, y: seq<string>)
    requires x != []
    ensures [[c] + (x + y)[0]] + (x + y)[1..] == [[c] + x[0]] + x[1..] + y
  {
  }

  /** The blank `join` writes after its comma is stripped again. */
  lemma EntriesIgnoreBlankInFront(b: string)
    ensures EntriesOf(" " + b) == EntriesOf(b)
  {
    var t := Split(b);
    assert (" " + b)[1..] == b;
    assert Split(" " + b) == [" " + t[0]] + t[1..];
    assert (" " + t[0])[1..] == t[0];
    assert Strip(" " + t[0]) == Strip(t[0]);
  }

  lemma EntriesOfConcat(a: string, b: string)
    ensures EntriesOf(a + "," + b) == EntriesOf(a) + EntriesOf(b)
  {
    SplitAtComma(a, b);
    NonBlankConcat(Split(a), Split(b));
  }

  function AllEntries(values: seq<string>): seq<string> {
    if values == [] then [] else AllEntries(values[..|values| - 1]) + EntriesOf(values[|values| - 1])
  }

  /** Splitting the joined header lines is joining what each line splits into. */
  lemma {:induction false} SplitOfJoined(values: seq<string>)
    ensures EntriesOf(Joined(values)) == AllEntries(values)
  {
    assert Split("") == [""] && EntriesOf("") == [];
    if values != [] {
      var before, last := values[..|values| - 1], values[|values| - 1];
      SplitOfJoined(before);
      if last != "" && Joined(before) != "" {
        assert Joined(before) + ", " + last == Joined(before) + "," + (" " + last);
        EntriesOfConcat(Joined(before), " " + last);
        EntriesIgnoreBlankInFront(last);
      }
    }
  }

  // -------------------------------------------------------------------------
  // What the client can write
  // -------------------------------------------------------------------------

  /** A proxy adds the address it received the request from: as a header line of its own,
      at the end of the last line, or after joining all lines into one. */
  datatype Manner = OwnLine | LastLine | OneLine

  datatype Hop = Hop(entry: string, manner: Manner)

  function Forwarded(values: seq<string>, hop: Hop): seq<string> {
    if hop.manner.OwnLine? || values == [] then values + [hop.entry]
    else if hop.manner.OneLine? then [Joined(values + [hop.entry])]
    else
      var last := values[|values| - 1];
      values[..|values| - 1] + [if last == "" then hop.entry else last + ", " + hop.entry]
  }

  function ThroughProxies(values: seq<string>, hops: seq<Hop>): seq<string> {
    if hops == [] then values else Forwarded(ThroughProxies(values, hops[..|hops| - 1]), hops[|hops| - 1])
  }

  predicate ValidEntry(entry: string) {
    entry != "" && Strip(entry) == entry && forall i :: 0 <= i < |entry| ==> entry[i] != ','
  }

  lemma {:induction false} SplitWithoutComma(s: string)
    requires forall i :: 0 <= i < |s| ==> s[i] != ','
    ensures Split(s) == [s]
  {
    if s != "" {
      SplitWithoutComma(s[1..]);
      assert [s[0]] + s[1..] == s;
    }
  }

  lemma EntryAlone(entry: string)
    requires ValidEntry(entry)
    ensures EntriesOf(entry) == [entry]
  {
    SplitWithoutComma(entry);
    assert NonBlank([entry][1..]) == [];
  }

  lemma AllEntriesAppend(values: seq<string>, line: string)
    ensures AllEntries(values + [line]) == AllEntries(values) + EntriesOf(line)
  {
    LastAndInit(values, line);
  }

  lemma EntryAppended(line: string, entry: string)
    requires ValidEntry(entry)
    ensures EntriesOf(if line == "" then entry else line + ", " + entry) == EntriesOf(line) + [entry]
  {
    EntryAlone(entry);
    assert Split("") == [""] && EntriesOf("") == [];
    if line != "" {
      assert line + ", " + entry == line + "," + (" " + entry);
      EntriesOfConcat(line, " " + entry);
      EntriesIgnoreBlankInFront(entry);
    }
  }

  /** However a proxy adds its entry, it ends up last. */
  lemma ProxyAddsLast(values: seq<string>, hop: Hop)
    requires ValidEntry(hop.entry)
    ensures AllEntries(Forwarded(values, hop)) == AllEntries(values) + [hop.entry]
  {
    EntryAlone(hop.entry);
    if hop.manner.OwnLine? || values == [] {
      AllEntriesAppend(values, hop.entry);
    } else if hop.manner.OneLine? {
      AllEntriesAppend(values, hop.entry);
      SplitOfJoined(values + [hop.entry]);
      AllEntriesAppend([], Joined(values + [hop.entry]));
    } else {
      var before, last := values[..|values| - 1], values[|values| - 1];
      assert values == before + [last];
      EntryAppended(last, hop.entry);
      AllEntriesAppend(before, last);
      AllEntriesAppend(before, if last == "" then hop.entry else last + ", " + hop.entry);
    }
  }

  function EntriesAdded(hops: seq<Hop>): (entries: seq<string>)
    ensures |entries| == |hops|
  {
    if hops == [] then [] else EntriesAdded(hops[..|hops| - 1]) + [hops[|hops| - 1].entry]
  }

  lemma {:induction false} FirstAdded(hops: seq<Hop>)
    requires hops != []
    ensures EntriesAdded(hops)[0] == hops[0].entry
  {
    if |hops| > 1 { FirstAdded(hops[..|hops| - 1]); }
  }

  lemma {:induction false} ProxiesAddInOrder(values: seq<string>, hops: seq<Hop>)
    requires forall h :: h in hops ==> ValidEntry(h.entry)
    ensures AllEntries(ThroughProxies(values, hops)) == AllEntries(values) + EntriesAdded(hops)
  {
    if hops != [] {
      var before := hops[..|hops| - 1];
      ProxiesAddInOrder(values, before);
      ProxyAddsLast(ThroughProxies(values, before), hops[|hops| - 1]);
      Associative(AllEntries(values), EntriesAdded(before), [hops[|hops| - 1].entry]);
    }
  }

  /** From a trusted peer the chosen entry decides, when it is an address. */
  lemma ChosenDecides(lines: seq<string>, configured: int, entries: seq<string>, peer: string,
                      address: string -> Option<string>, trusted: string -> bool)
    requires entries == EntriesOf(Joined(lines)) && entries != []
    requires peer != "" && address(HostOf(peer)).Some? && trusted(address(HostOf(peer)).value)
    ensures Resolve(Some(peer), ForwardedFor(lines), true, configured, address, trusted)
         == (var named := address(HostOf(Chosen(entries, configured))); if named.Some? then named else Some(peer))
  {
    assert Joined(lines) != "" by { assert Split("") == [""] && EntriesOf("") == []; }
  }

  /** Whatever lines, commas and blanks a client sends, once the `hops` trusted proxies
      have each added their entry, the address is the one the outermost of them recorded. */
  lemma ClientCannotChoose(values: seq<string>, hops: seq<Hop>, configured: int, peer: string,
                           address: string -> Option<string>, trusted: string -> bool)
    requires |hops| == Max(1, configured) && forall h :: h in hops ==> ValidEntry(h.entry)
    requires peer != "" && address(HostOf(peer)).Some? && trusted(address(HostOf(peer)).value)
    ensures Resolve(Some(peer), ForwardedFor(ThroughProxies(values, hops)), true, configured, address, trusted)
         == (var recorded := address(HostOf(hops[0].entry)); if recorded.Some? then recorded else Some(peer))
  {
    var lines := ThroughProxies(values, hops);
    SplitOfJoined(lines);
    ProxiesAddInOrder(values, hops);
    var entries := EntriesOf(Joined(lines));
    assert entries == AllEntries(values) + EntriesAdded(hops);
    FirstAdded(hops);
    assert entries[|AllEntries(values)|] == hops[0].entry;
    ChosenDecides(lines, configured, entries, peer, address, trusted);
  }

  /** The place that is chosen when `hops` proxies, at most as many as configured, have
      added their entries to what the client sent. */
  function ChosenAt(entries: seq<string>, configured: int): nat { Max(0, |entries| - Max(1, configured)) }

  /** When the request skipped the outer proxies, the entry chosen is the one the first
      proxy that saw it wrote, if and only if the client wrote none of its own. With no
      proxy skipped it is, whatever the client wrote. */
  lemma FirstProxyIsChosenIff(values: seq<string>, hops: seq<Hop>, configured: int)
    requires 0 < |hops| <= Max(1, configured) && forall h :: h in hops ==> ValidEntry(h.entry)
    ensures var entries := EntriesOf(Joined(ThroughProxies(values, hops)));
      && |AllEntries(values)| < |entries| && entries[|AllEntries(values)|] == hops[0].entry
      && ChosenAt(entries, configured) < |entries|
      && Chosen(entries, configured) == entries[ChosenAt(entries, configured)]
      && (ChosenAt(entries, configured) == |AllEntries(values)|
          <==> AllEntries(values) == [] || |hops| == Max(1, configured))
  {
    SplitOfJoined(ThroughProxies(values, hops));
    ProxiesAddInOrder(values, hops);
    FirstAdded(hops);
  }

  /** Then a client chooses its own address: behind one proxy where two or more are
      configured, the entry it sent itself is the one that counts. */
  lemma SkippedProxiesLetClientChoose(own: string, hop: Hop, configured: int, peer: string,
                                      address: string -> Option<string>, trusted: string -> bool)
    requires ValidEntry(own) && ValidEntry(hop.entry) && configured >= 2
    requires peer != "" && address(HostOf(peer)).Some? && trusted(address(HostOf(peer)).value)
    ensures Resolve(Some(peer), ForwardedFor(ThroughProxies([own], [hop])), true, configured, address, trusted)
         == (var sent := address(HostOf(own)); if sent.Some? then sent else Some(peer))
  {
    var lines := ThroughProxies([own], [hop]);
    OwnEntryFirst(own, hop);
    ChosenDecides(lines, configured, EntriesOf(Joined(lines)), peer, address, trusted);
  }

  lemma OwnEntryFirst(own: string, hop: Hop)
    requires ValidEntry(own) && ValidEntry(hop.entry)
    ensures EntriesOf(Joined(ThroughProxies([own], [hop]))) == [own, hop.entry]
  {
    SplitOfJoined(ThroughProxies([own], [hop]));
    ProxiesAddInOrder([own], [hop]);
    EntryAlone(own);
    AllEntriesAppend([], own);
    FirstAdded([hop]);
  }

  /** From a peer that is not trusted, and without configured proxies, headers count for
      nothing. */
  lemma UntrustedPeerIsTheClient(peer: string, values: seq<string>, others: seq<string>, anyTrusted: bool, hops: int,
                                 address: string -> Option<string>, trusted: string -> bool)
    requires !anyTrusted || address(HostOf(peer)).None? || !trusted(address(HostOf(peer)).value)
    ensures Resolve(Some(peer), ForwardedFor(values), anyTrusted, hops, address, trusted)
         == Resolve(Some(peer), ForwardedFor(others), anyTrusted, hops, address, trusted)
         == if peer == "" then None else Some(peer)
  {
  }

  // -------------------------------------------------------------------------
  // Ports and brackets
  // -------------------------------------------------------------------------

  lemma {:induction false} UpToFirst(a: string, c: char, rest: string)
    requires forall i :: 0 <= i < |a| ==> a[i] != c
    ensures UpTo(a + [c] + rest, c) == a
  {
    var s := a + [c] + rest;
    if a != "" {
      assert s[1..] == a[1..] + [c] + rest;
      UpToFirst(a[1..], c, rest);
    }
  }

  lemma {:induction false} CountConcat(a: string, b: string, c: char)
    ensures Count(a + b, c) == Count(a, c) + Count(b, c)
  {
    if a == "" {
      assert a + b == b;
    } else {
      assert (a + b)[1..] == a[1..] + b;
      CountConcat(a[1..], b, c);
    }
  }

  lemma {:induction false} NoneCounted(a: string, c: char)
    requires forall i :: 0 <= i < |a| ==> a[i] != c
    ensures Count(a, c) == 0
  {
    if a != "" { NoneCounted(a[1..], c); }
  }

  predicate Lacks(s: string, c: char) { forall i :: 0 <= i < |s| ==> s[i] != c }

  predicate IsPort(port: string) { forall i :: 0 <= i < |port| ==> '0' <= port[i] <= '9' }

  lemma NothingToStrip(s: string)
    requires s != "" && !IsBlank(s[0]) && !IsBlank(s[|s| - 1])
    ensures Strip(s) == s
  {
  }

  /** A port is removed from an IPv4 address. */
  lemma PortIsRemoved(host: string, port: string)
    requires host != "" && !IsBlank(host[0]) && host[0] != '[' && Lacks(host, ':')
    requires port != "" && IsPort(port)
    ensures HostOf(host + ":" + port) == host
  {
    var s := host + ":" + port;
    assert s[0] == host[0] && s[|s| - 1] == port[|port| - 1];
    NothingToStrip(s);
    CountConcat(host + ":", port, ':');
    CountConcat(host, ":", ':');
    NoneCounted(host, ':');
    NoneCounted(port, ':');
    assert Count(":", ':') == 1;
    UpToFirst(host, ':', port);
  }

  /** Brackets, and a port after them, are removed from an IPv6 address. */
  lemma BracketsAreRemoved(host: string, port: string)
    requires Lacks(host, ']') && IsPort(port)
    ensures HostOf("[" + host + "]:" + port) == host
  {
    var s := "[" + host + "]:" + port;
    assert s[0] == '[' && s[|s| - 1] == if port == "" then ':' else port[|port| - 1];
    NothingToStrip(s);
    assert s[1..] == host + "]" + (":" + port);
    UpToFirst(host, ']', ":" + port);
  }

  /** Brackets are removed without a port as well. */
  lemma BracketsAloneAreRemoved(host: string)
    requires Lacks(host, ']')
    ensures HostOf("[" + host + "]") == host
  {
    var s := "[" + host + "]";
    assert s[0] == '[' && s[|s| - 1] == ']';
    NothingToStrip(s);
    assert s[1..] == host + "]" + "";
    UpToFirst(host, ']', "");
  }

  lemma {:induction false} Counted(s: string, i: nat, c: char)
    requires i < |s| && s[i] == c
    ensures Count(s, c) >= 1
  {
    if i > 0 { Counted(s[1..], i - 1, c); }
  }

  lemma {:induction false} CountedTwice(s: string, i: nat, j: nat, c: char)
    requires i < j < |s| && s[i] == c && s[j] == c
    ensures Count(s, c) >= 2
  {
    if i > 0 { CountedTwice(s[1..], i - 1, j - 1, c); } else { Counted(s[1..], j - 1, c); }
  }

  /** An address without a port is read as it stands: an IPv4 one has no colon, a bare
      IPv6 one has two or more. */
  lemma PlainHostIsRead(host: string)
    requires host != "" && !IsBlank(host[0]) && !IsBlank(host[|host| - 1]) && host[0] != '['
    requires Lacks(host, ':') || exists i, j :: 0 <= i < j < |host| && host[i] == ':' && host[j] == ':'
    ensures HostOf(host) == host
  {
    NothingToStrip(host);
    if Lacks(host, ':') {
      NoneCounted(host, ':');
    } else {
      var i, j :| 0 <= i < j < |host| && host[i] == ':' && host[j] == ':';
      CountedTwice(host, i, j, ':');
    }
  }

  // -------------------------------------------------------------------------
  // Blanks and commas
  // -------------------------------------------------------------------------

  ghost predicate AllBlank(s: string) { forall c :: c in s ==> IsBlank(c) }

  lemma {:induction false} LeftIsTrimmed(s: string) returns (blanks: string)
    ensures s == blanks + TrimLeft(s) && AllBlank(blanks)
    ensures TrimLeft(s) != "" ==> !IsBlank(TrimLeft(s)[0])
  {
    blanks := "";
    if s != "" && IsBlank(s[0]) {
      var more := LeftIsTrimmed(s[1..]);
      blanks := [s[0]] + more;
      assert s == [s[0]] + s[1..];
    }
  }

  lemma {:induction false} RightIsTrimmed(s: string) returns (blanks: string)
    ensures s == TrimRight(s) + blanks && AllBlank(blanks)
    ensures TrimRight(s) != "" ==> !IsBlank(TrimRight(s)[|TrimRight(s)| - 1]) && TrimRight(s)[0] == s[0]
  {
    blanks := "";
    if s != "" && IsBlank(s[|s| - 1]) {
      var more := RightIsTrimmed(s[..|s| - 1]);
      blanks := more + [s[|s| - 1]];
      assert s == s[..|s| - 1] + [s[|s| - 1]];
    }
  }

  /** `Strip` removes blanks at both ends and nothing else, and leaves none there. */
  lemma OnlyBlanksAreStripped(s: string) returns (before: string, after: string)
    ensures s == before + Strip(s) + after && AllBlank(before) && AllBlank(after)
    ensures Strip(s) != "" ==> !IsBlank(Strip(s)[0]) && !IsBlank(Strip(s)[|Strip(s)| - 1])
  {
    before := LeftIsTrimmed(s);
    after := RightIsTrimmed(TrimLeft(s));
    Associative(before, Strip(s), after);
  }

  /** `",".join(parts)`. */
  function WithCommas(parts: seq<string>): string {
    if parts == [] then "" else if |parts| == 1 then parts[0] else parts[0] + "," + WithCommas(parts[1..])
  }

  /** `Split` cuts at the commas and nowhere else. */
  lemma {:induction false} SplitCutsAtCommas(s: string)
    ensures WithCommas(Split(s)) == s
    ensures forall i :: 0 <= i < |Split(s)| ==> Lacks(Split(s)[i], ',')
  {
    if s != "" {
      var rest := Split(s[1..]);
      SplitCutsAtCommas(s[1..]);
      assert s == [s[0]] + s[1..];
      if s[0] == ',' {
        assert Split(s)[1..] == rest;
      } else {
        PrependJoins(s[0], rest);
      }
    }
  }

  lemma PrependJoins(c: char, parts: seq<string>)
    requires parts != []
    ensures WithCommas([[c] + parts[0]] + parts[1..]) == [c] + WithCommas(parts)
  {
    var all := [[c] + parts[0]] + parts[1..];
    assert all[1..] == parts[1..];
    if |parts| > 1 {
      assert all[0] + "," + WithCommas(parts[1..]) == [c] + (parts[0] + "," + WithCommas(parts[1..]));
    }
  }
}
