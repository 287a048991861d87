/** main.go: `parseInput` (the shared expander with this file's error texts),
    `checkBlacklist` over the built-in blacklist list, the single consumer that
    groups match events by address, and the end of the run: either
    "No blacklisted IPs found." or a JSON file named after the input.

    The goroutines are replaced by what they can produce: each address's
    events in blacklist order, arriving at the consumer in any interleaving. */
module BlacklistChecker {
  import opened Results
  import opened Models
  import opened Strings
  import opened Addresses
  import opened Dnsbl

  /** The error texts of main.go (capitalised, unlike pkg/utils/ip.go's). */
  function ErrorMessage(e: InputError): string
  {
    match e
    case InvalidAddress(arg) => "Invalid IP address: " + arg
    case InvalidSubnet(arg) => "Invalid subnet format: " + arg
    case UnsupportedPrefix => "Only /24 subnet is supported"
  }

  /** `parseInput`: the expansion of `arg`, or the reason it was refused. */
  function ParseInput(arg: string, parseIP: string -> Option<IPv4>, parseCIDR: string -> CidrParse)
    : (r: Result<Expansion, string>)
    ensures '/' !in arg && parseIP(arg).Some? ==>
              var text := Dotted(parseIP(arg).value);
              r == Success(Expansion([text], text))
    ensures '/' !in arg && parseIP(arg).None? ==> r == Failure("Invalid IP address: " + arg)
    ensures '/' in arg && parseCIDR(arg).CidrRejected? ==> r == Failure("Invalid subnet format: " + arg)
    ensures '/' in arg && !parseCIDR(arg).CidrRejected? && MaskSize(parseCIDR(arg)) != (24, 32) ==>
              r == Failure("Only /24 subnet is supported")
    ensures '/' in arg && !parseCIDR(arg).CidrRejected? && MaskSize(parseCIDR(arg)) == (24, 32) ==>
              var base := parseCIDR(arg).ip;
              && r.Success?
              && |r.value.addresses| == 256
              && (forall i: Octet :: r.value.addresses[i] == Dotted(SubnetHost(base, i)))
              && r.value.subnetOrIP == CidrLabel(SubnetHost(base, 0), 24)
  {
    match Expand(arg, parseIP, parseCIDR)
    case Success(expansion) => Success(expansion)
    case Failure(e) => Failure(ErrorMessage(e))
  }

  /** main.go's own result record: one positive match. */
  datatype Event = Event(ip: string, blacklist: string)

  /** `checkBlacklist`: the events one address produces, in blacklist order.
      Unlike `CheckIP`, it does not test the reversed name for `""`. */
  function CheckBlacklist(ip: string, blacklists: seq<string>, resolves: string -> bool): (events: seq<Event>)
    ensures var hits := Listed(ReverseIP(ip), blacklists, resolves);
            && |events| == |hits|
            && forall k :: 0 <= k < |events| ==> events[k] == Event(ip, hits[k])
  {
    var hits := Listed(ReverseIP(ip), blacklists, resolves);
    seq(|hits|, (k: int) requires 0 <= k < |hits| => Event(ip, hits[k]))
  }

  /** For a well-formed address, main.go's probe emits the same matches, in the
      same order, as `CheckIP` with the built-in list and no custom list. */
  lemma CheckBlacklistAgreesWithCheckIP(ip: string, blacklists: seq<string>, resolves: string -> bool, cfg: Config)
    requires |Split(ip, '.')| == 4
    requires cfg.blacklists == blacklists && cfg.customBlacklists == []
    ensures ReverseIP(ip) != ""
    ensures Listed(ReverseIP(ip), EffectiveBlacklists(cfg), resolves) ==
            Blacklists(CheckBlacklist(ip, blacklists, resolves))
  {
    assert EffectiveBlacklists(cfg) == blacklists;
    BlacklistsOfCheck(ip, blacklists, resolves);
  }

  /** The query name of an expanded address is its octets in reverse order,
      then the blacklist domain. */
  lemma QueryNameOfAddress(ip: IPv4, bl: string)
    ensures ReverseIP(Dotted(ip)) == Dotted(IPv4(ip.o3, ip.o2, ip.o1, ip.o0))
    ensures QueryName(ReverseIP(Dotted(ip)), bl) == Dotted(IPv4(ip.o3, ip.o2, ip.o1, ip.o0)) + "." + bl
  {
    DottedParts(ip);
    var p := OctetTexts(ip);
    JoinFour(p[3], p[2], p[1], p[0], '.');
  }

  /** 203.0.113.5 is asked of bl.spamcop.net as 5.113.0.203.bl.spamcop.net. */
  lemma QueryNameExample(ip: IPv4)
    requires ip == IPv4(203, 0, 113, 5)
    ensures QueryName(ReverseIP(Dotted(ip)), "bl.spamcop.net") == "5.113.0.203.bl.spamcop.net"
  {
    var rev := IPv4(ip.o3, ip.o2, ip.o1, ip.o0);
    assert Decimal(rev.o0) == "5";
    assert Decimal(rev.o1) == "113";
    assert Decimal(rev.o2) == "0";
    assert Decimal(rev.o3) == "203";
    assert OctetTexts(rev) == ["5", "113", "0", "203"];
    assert Join(["5", "113", "0", "203"], '.') == "5.113.0.203";
    QueryNameOfAddress(ip, "bl.spamcop.net");
    var r := ReverseIP(Dotted(ip));
    assert r == "5.113.0.203";
    assert QueryName(r, "bl.spamcop.net") == "5.113.0.203" + "." + "bl.spamcop.net";
    ExampleNameSpelling();
  }

  /** The example's query name, spelt out from its pieces. */
  lemma ExampleNameSpelling()
    ensures "5.113.0.203" + "." + "bl.spamcop.net" == "5.113.0.203.bl.spamcop.net"
  {
  }

  /** The blacklist names of a run of events. */
  function Blacklists(events: seq<Event>): (names: seq<string>)
    ensures |names| == |events|
    ensures forall k :: 0 <= k < |events| ==> names[k] == events[k].blacklist
  {
    seq(|events|, (k: int) requires 0 <= k < |events| => events[k].blacklist)
  }

  lemma BlacklistsOfCheck(ip: string, blacklists: seq<string>, resolves: string -> bool)
    ensures Blacklists(CheckBlacklist(ip, blacklists, resolves)) == Listed(ReverseIP(ip), blacklists, resolves)
  {
  }

  // ----- the consumer: grouping events by address -----

  type Grouped = map<string, seq<string>>

  /** One step of the consumer: `grouped[res.IP] = append(grouped[res.IP], res.Blacklist)`,
      where a missing key reads as the empty list. */
  function Absorb(grouped: Grouped, e: Event): Grouped
  {
    grouped[e.ip := (if e.ip in grouped then grouped[e.ip] else []) + [e.blacklist]]
  }

  /** The consumer after it has drained `events`, in arrival order. */
  function Aggregate(events: seq<Event>): Grouped
  {
    if |events| == 0 then map[]
    else Absorb(Aggregate(events[..|events| - 1]), events[|events| - 1])
  }

  /** The blacklists of the events for `ip`, in arrival order: the reference
      definition of what the consumer should hold for that address. */
  function MatchesOf(events: seq<Event>, ip: string): seq<string>
  {
    if |events| == 0 then []
    else
      var last := events[|events| - 1];
      MatchesOf(events[..|events| - 1], ip) + (if last.ip == ip then [last.blacklist] else [])
  }

  /** After any run of events, an address is a key exactly when it has a
      match, and its list is that address's blacklists in arrival order. */
  lemma {:induction false} AggregateSpec(events: seq<Event>)
    ensures forall ip :: ip in Aggregate(events) <==> MatchesOf(events, ip) != []
    ensures forall ip :: ip in Aggregate(events) ==> Aggregate(events)[ip] == MatchesOf(events, ip)
    decreases |events|
  {
    if |events| > 0 {
      AggregateSpec(events[..|events| - 1]);
    }
  }

  /** The consumer's map depends only on each address's own subsequence of
      events, not on how addresses interleave. */
  lemma AggregateInterleavingFree(events: seq<Event>, other: seq<Event>)
    requires forall ip :: MatchesOf(events, ip) == MatchesOf(other, ip)
    ensures Aggregate(events) == Aggregate(other)
  {
    AggregateSpec(events);
    AggregateSpec(other);
    assert Aggregate(events).Keys == Aggregate(other).Keys;
  }

  /** An address has a match exactly when some event carries it; so after
      any run, the consumer's keys are exactly the addresses of the events. */
  lemma {:induction false} MatchesNonEmpty(events: seq<Event>, ip: string)
    ensures MatchesOf(events, ip) != [] <==> exists k :: 0 <= k < |events| && events[k].ip == ip
    ensures ip in Aggregate(events) <==> exists k :: 0 <= k < |events| && events[k].ip == ip
    decreases |events|
  {
    AggregateSpec(events);
    if |events| > 0 {
      var init := events[..|events| - 1];
      MatchesNonEmpty(init, ip);
      if exists k :: 0 <= k < |events| && events[k].ip == ip {
        var k :| 0 <= k < |events| && events[k].ip == ip;
        if k < |init| {
          assert init[k].ip == ip;
        }
      }
      if exists k :: 0 <= k < |init| && init[k].ip == ip {
        var k :| 0 <= k < |init| && init[k].ip == ip;
        assert events[k].ip == ip;
      }
    }
  }

  // ----- interleavings of the per-address streams -----

  /** The events that the schedule `owner` attributes to stream `j`, in order. */
  function StreamOf(events: seq<Event>, owner: seq<nat>, j: nat): seq<Event>
    requires |owner| == |events|
  {
    if |events| == 0 then []
    else
      var n := |events| - 1;
      StreamOf(events[..n], owner[..n], j) + (if owner[n] == j then [events[n]] else [])
  }

  /** `events` is one arrival order of `streams`: each event comes from one
      stream, and each stream's events arrive in their own order. */
  predicate Interleaves(events: seq<Event>, owner: seq<nat>, streams: seq<seq<Event>>)
  {
    && |owner| == |events|
    && (forall k :: 0 <= k < |owner| ==> owner[k] < |streams|)
    && (forall j :: 0 <= j < |streams| ==> StreamOf(events, owner, j) == streams[j])
  }

  lemma {:induction false} StreamOfHoldsEvent(events: seq<Event>, owner: seq<nat>, k: nat)
    requires |owner| == |events| && k < |events|
    ensures events[k] in StreamOf(events, owner, owner[k])
    decreases |events|
  {
    var n := |events| - 1;
    if k < n {
      StreamOfHoldsEvent(events[..n], owner[..n], k);
    }
  }

  /** When event `k` carries the address of its stream and the addresses are
      distinct, an address's matches are exactly its stream's blacklists. */
  lemma {:induction false} MatchesOfStream(events: seq<Event>, owner: seq<nat>, addrs: seq<string>, j: nat)
    requires |owner| == |events| && j < |addrs|
    requires forall k :: 0 <= k < |events| ==> owner[k] < |addrs| && events[k].ip == addrs[owner[k]]
    requires forall a, b :: 0 <= a < b < |addrs| ==> addrs[a] != addrs[b]
    ensures MatchesOf(events, addrs[j]) == Blacklists(StreamOf(events, owner, j))
    decreases |events|
  {
    if |events| > 0 {
      var n := |events| - 1;
      MatchesOfStream(events[..n], owner[..n], addrs, j);
      var s := StreamOf(events[..n], owner[..n], j);
      if owner[n] == j {
        assert Blacklists(s + [events[n]]) == Blacklists(s) + [events[n].blacklist];
      } else {
        assert addrs[owner[n]] != addrs[j];
        assert s + [] == s;
      }
    }
  }

  /** The whole probing phase: whatever the arrival order of the per-address
      event streams of distinct addresses, the consumer ends up with exactly the
      addresses listed somewhere as keys, each mapped to the blacklists that
      answered for it, in blacklist order. */
  lemma AggregateOfInterleavedProbes(
    addrs: seq<string>,
    blacklists: seq<string>,
    resolves: string -> bool,
    events: seq<Event>,
    owner: seq<nat>)
    requires forall a, b :: 0 <= a < b < |addrs| ==> addrs[a] != addrs[b]
    requires Interleaves(events, owner, seq(|addrs|, (j: int) requires 0 <= j < |addrs| =>
                                              CheckBlacklist(addrs[j], blacklists, resolves)))
    ensures forall ip :: ip in Aggregate(events) ==> ip in addrs
    ensures forall j :: 0 <= j < |addrs| ==>
              (addrs[j] in Aggregate(events) <==> Listed(ReverseIP(addrs[j]), blacklists, resolves) != [])
    ensures forall j :: 0 <= j < |addrs| && addrs[j] in Aggregate(events) ==>
              Aggregate(events)[addrs[j]] == Listed(ReverseIP(addrs[j]), blacklists, resolves)
  {
    var streams := seq(|addrs|, (j: int) requires 0 <= j < |addrs| =>
                         CheckBlacklist(addrs[j], blacklists, resolves));
    forall k | 0 <= k < |events|
      ensures owner[k] < |addrs| && events[k].ip == addrs[owner[k]]
    {
      StreamOfHoldsEvent(events, owner, k);
      assert events[k] in streams[owner[k]];
    }
    AggregateSpec(events);
    forall ip | ip in Aggregate(events)
      ensures ip in addrs
    {
      MatchesNonEmpty(events, ip);
      var k :| 0 <= k < |events| && events[k].ip == ip;
      assert ip == addrs[owner[k]];
    }
    forall j | 0 <= j < |addrs|
      ensures addrs[j] in Aggregate(events) <==> Listed(ReverseIP(addrs[j]), blacklists, resolves) != []
      ensures addrs[j] in Aggregate(events) ==>
                Aggregate(events)[addrs[j]] == Listed(ReverseIP(addrs[j]), blacklists, resolves)
    {
      MatchesOfStream(events, owner, addrs, j);
      BlacklistsOfCheck(addrs[j], blacklists, resolves);
      MatchesNonEmpty(events, addrs[j]);
    }
  }

  // ----- the end of the run -----

  /** What `main` does once the consumer is done. */
  datatype RunOutcome =
    | NoneFound                                  // prints "No blacklisted IPs found.", writes nothing
    | WriteReport(filename: string, results: Grouped)

  const NoneFoundMessage := "No blacklisted IPs found."

  /** The output file name: the input lbl with every `/` turned into `-`,
      then `_`, the timestamp and `.json`. */
  function OutputFilename(subnetOrIP: string, timestamp: string): (name: string)
    ensures |name| == |subnetOrIP| + 1 + |timestamp| + 5
    ensures forall i :: 0 <= i < |subnetOrIP| ==>
              name[i] == (if subnetOrIP[i] == '/' then '-' else subnetOrIP[i])
    ensures '/' !in name[..|subnetOrIP|]
    ensures name[|subnetOrIP|] == '_'
    ensures name[|subnetOrIP| + 1..] == timestamp + ".json"
  {
    var safe := ReplaceChar(subnetOrIP, '/', '-');
    assert (safe + "_" + timestamp + ".json")[..|subnetOrIP|] == safe;
    safe + "_" + timestamp + ".json"
  }

  /** The end of `main`: no file when nothing was listed, otherwise the grouped
      results go to the file named after the input and the timestamp. */
  function Finish(grouped: Grouped, subnetOrIP: string, timestamp: string): (o: RunOutcome)
    ensures o.NoneFound? <==> grouped == map[]
    ensures o.WriteReport? ==>
              o.results == grouped && o.filename == OutputFilename(subnetOrIP, timestamp)
  {
    if |grouped| == 0 then NoneFound
    else WriteReport(OutputFilename(subnetOrIP, timestamp), grouped)
  }

  /** A label holding one `/` between two slash-free parts becomes a file name
      with `-` in its place. */
  lemma OutputFilenameOfPrefix(network: string, prefix: string, timestamp: string)
    requires '/' !in network && '/' !in prefix
    ensures OutputFilename(network + "/" + prefix, timestamp) ==
            network + "-" + prefix + "_" + timestamp + ".json"
  {
    var lbl := network + "/" + prefix;
    var safe := ReplaceChar(lbl, '/', '-');
    assert safe == network + "-" + prefix by {
      forall i | 0 <= i < |lbl|
        ensures safe[i] == (network + "-" + prefix)[i]
      {
        if i < |network| {
          assert lbl[i] == network[i];
        } else if i > |network| {
          assert lbl[i] == prefix[i - |network| - 1];
        }
      }
    }
  }

  /** A /24 run writes `<a>.<b>.<c>.0-24_<timestamp>.json`. */
  lemma SubnetFilename(base: IPv4, timestamp: string)
    ensures OutputFilename(CidrLabel(SubnetHost(base, 0), 24), timestamp) ==
            Dotted(SubnetHost(base, 0)) + "-" + Decimal(24) + "_" + timestamp + ".json"
  {
    var net := Dotted(SubnetHost(base, 0));
    assert '/' !in net by {
      var parts := OctetTexts(SubnetHost(base, 0));
      assert forall k :: 0 <= k < 4 ==> IsDigits(parts[k]) && '/' !in parts[k];
      JoinFour(parts[0], parts[1], parts[2], parts[3], '.');
    }
    assert '/' !in Decimal(24) by {
      assert IsDigits(Decimal(24));
    }
    OutputFilenameOfPrefix(net, Decimal(24), timestamp);
  }

  /** An oracle that never answers leaves the consumer empty, so the run prints
      the no-match message and writes no file. */
  lemma NothingListedWritesNothing(
    addrs: seq<string>,
    blacklists: seq<string>,
    resolves: string -> bool,
    events: seq<Event>,
    owner: seq<nat>,
    subnetOrIP: string,
    timestamp: string)
    requires forall q :: !resolves(q)
    requires forall a, b :: 0 <= a < b < |addrs| ==> addrs[a] != addrs[b]
    requires Interleaves(events, owner, seq(|addrs|, (j: int) requires 0 <= j < |addrs| =>
                                              CheckBlacklist(addrs[j], blacklists, resolves)))
    ensures Finish(Aggregate(events), subnetOrIP, timestamp) == NoneFound
  {
    AggregateOfInterleavedProbes(addrs, blacklists, resolves, events, owner);
    forall j | 0 <= j < |addrs|
      ensures addrs[j] !in Aggregate(events)
    {
      ListedUnderConstantOracle(ReverseIP(addrs[j]), blacklists, resolves);
    }
    forall ip
      ensures ip !in Aggregate(events)
    {
    }
    assert Aggregate(events) == map[];
  }

  /** An oracle that always answers puts every address in the map with the
      whole blacklist list, duplicates included. */
  lemma EverythingListed(
    addrs: seq<string>,
    blacklists: seq<string>,
    resolves: string -> bool,
    events: seq<Event>,
    owner: seq<nat>)
    requires forall q :: resolves(q)
    requires |blacklists| > 0
    requires forall a, b :: 0 <= a < b < |addrs| ==> addrs[a] != addrs[b]
    requires Interleaves(events, owner, seq(|addrs|, (j: int) requires 0 <= j < |addrs| =>
                                              CheckBlacklist(addrs[j], blacklists, resolves)))
    ensures forall j :: 0 <= j < |addrs| ==>
              addrs[j] in Aggregate(events) && Aggregate(events)[addrs[j]] == blacklists
  {
    AggregateOfInterleavedProbes(addrs, blacklists, resolves, events, owner);
    forall j | 0 <= j < |addrs|
      ensures Listed(ReverseIP(addrs[j]), blacklists, resolves) == blacklists
    {
      ListedUnderConstantOracle(ReverseIP(addrs[j]), blacklists, resolves);
    }
  }

  // ----- reading the map before the consumer has drained the channel -----

  /** The consumer holds an empty map exactly when it has absorbed no event. */
  lemma {:induction false} AggregateEmpty(events: seq<Event>)
    ensures Aggregate(events) == map[] <==> |events| == 0
  {
    if |events| > 0 {
      var last := events[|events| - 1];
      assert last.ip in Aggregate(events);
    }
  }

  /** The end of `main` as written: after `close(resultChan)` it reads `grouped`
      without waiting for the consumer goroutine, which may so far have absorbed
      only the first `drained` events. The run then reports nothing found
      exactly when the consumer had absorbed nothing yet, whatever was sent. */
  function FinishAsWritten(events: seq<Event>, drained: nat, subnetOrIP: string, timestamp: string)
    : (o: RunOutcome)
    requires drained <= |events|
    ensures o.NoneFound? <==> drained == 0
    ensures o.WriteReport? ==> o.results == Aggregate(events[..drained])
  {
    AggregateEmpty(events[..drained]);
    Finish(Aggregate(events[..drained]), subnetOrIP, timestamp)
  }

  /** One match sent and not yet absorbed when `main` reads the map: the run
      says "No blacklisted IPs found." although the address was listed. */
  lemma EarlyReadLosesMatch(ip: string, bl: string, subnetOrIP: string, timestamp: string)
    ensures var events := [Event(ip, bl)];
            && Aggregate(events) == map[ip := [bl]]
            && FinishAsWritten(events, 0, subnetOrIP, timestamp) == NoneFound
  {
    var events := [Event(ip, bl)];
    assert events[..0] == [];
    assert events[..|events| - 1] == [];
    assert Aggregate(events) == Absorb(map[], Event(ip, bl));
    assert [] + [bl] == [bl];
  }

  /** With the consumer fully drained, as the rest of this model assumes, the
      run reports nothing found exactly when no match event was sent. */
  lemma {:induction false} DrainedRunReportsEveryMatch(events: seq<Event>, subnetOrIP: string, timestamp: string)
    ensures Finish(Aggregate(events), subnetOrIP, timestamp).NoneFound? <==> |events| == 0
    ensures |events| > 0 ==>
              Finish(Aggregate(events), subnetOrIP, timestamp).results.Keys ==
              set k | 0 <= k < |events| :: events[k].ip
  {
    AggregateEmpty(events);
    AggregateSpec(events);
    forall ip
      ensures ip in Aggregate(events) <==> exists k :: 0 <= k < |events| && events[k].ip == ip
    {
      MatchesNonEmpty(events, ip);
    }
  }
}
