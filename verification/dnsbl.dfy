/** The DNSBL probe of pkg/dnsbl/checker.go: the reversed-octet query name
    (the IPv4 query convention of section 2.1 of RFC 5782) and the sequential
    per-address loop over every configured blacklist.

    The DNS resolver is the oracle `resolves`: `resolves(fqdn)` is true exactly
    when `LookupHost` of that name returns without error. */
module Dnsbl {
  import opened Models
  import opened Strings

  /** `reverseIP`: the four dot-separated parts in reverse order, or `""` when
      the input does not have exactly four parts. main.go holds an identical copy. */
  function ReverseIP(ip: string): (r: string)
    ensures |Split(ip, '.')| != 4 <==> r == ""
    ensures |Split(ip, '.')| == 4 ==>
              var p := Split(ip, '.');
              Split(r, '.') == [p[3], p[2], p[1], p[0]]
  {
    var parts := Split(ip, '.');
    if |parts| != 4 then ""
    else
      JoinFour(parts[3], parts[2], parts[1], parts[0], '.');
      SplitJoin([parts[3], parts[2], parts[1], parts[0]], '.');
      parts[3] + "." + parts[2] + "." + parts[1] + "." + parts[0]
  }

  /** Reversing twice gives back any address with four parts. */
  lemma ReverseIPInvolution(ip: string)
    requires |Split(ip, '.')| == 4
    ensures ReverseIP(ReverseIP(ip)) == ip
  {
    var p := Split(ip, '.');
    var r := ReverseIP(ip);
    assert Split(r, '.') == [p[3], p[2], p[1], p[0]];
    JoinFour(p[0], p[1], p[2], p[3], '.');
    JoinFour(p[3], p[2], p[1], p[0], '.');
    assert [p[0], p[1], p[2], p[3]] == p;
  }

  /** The DNS name asked of blacklist `bl`: `fmt.Sprintf("%s.%s", reversed, bl)`. */
  function QueryName(reversed: string, bl: string): string
  {
    reversed + "." + bl
  }

  /** The blacklists probed for one address: the configured list followed by
      the custom list, duplicates kept. */
  function EffectiveBlacklists(cfg: Config): (all: seq<string>)
    ensures |all| == |cfg.blacklists| + |cfg.customBlacklists|
    ensures forall i :: 0 <= i < |cfg.blacklists| ==> all[i] == cfg.blacklists[i]
    ensures forall j :: 0 <= j < |cfg.customBlacklists| ==>
              all[|cfg.blacklists| + j] == cfg.customBlacklists[j]
  {
    cfg.blacklists + cfg.customBlacklists
  }

  /** The entries of `lists`, in order, whose query name resolves: the reference
      definition of which blacklists an address is listed on. */
  function Listed(reversed: string, lists: seq<string>, resolves: string -> bool): (hits: seq<string>)
    ensures |hits| <= |lists|
    ensures forall bl :: bl in hits <==> bl in lists && resolves(QueryName(reversed, bl))
  {
    if |lists| == 0 then []
    else
      var last := lists[|lists| - 1];
      assert lists == lists[..|lists| - 1] + [last];
      Listed(reversed, lists[..|lists| - 1], resolves)
        + (if resolves(QueryName(reversed, last)) then [last] else [])
  }

  /** Listing distributes over concatenation: an entry's outcome neither drops
      nor reorders the entries after it. */
  lemma {:induction false} ListedConcat(reversed: string, a: seq<string>, b: seq<string>, resolves: string -> bool)
    ensures Listed(reversed, a + b, resolves) == Listed(reversed, a, resolves) + Listed(reversed, b, resolves)
    decreases |b|
  {
    if |b| == 0 {
      assert a + b == a;
    } else {
      var b' := b[..|b| - 1];
      assert (a + b)[..|a + b| - 1] == a + b';
      ListedConcat(reversed, a, b', resolves);
    }
  }

  /** Each blacklist keeps all of its occurrences when its lookup succeeds and
      none of them otherwise. */
  lemma {:induction false} ListedMultiplicity(reversed: string, lists: seq<string>, resolves: string -> bool, bl: string)
    ensures multiset(Listed(reversed, lists, resolves))[bl] ==
            (if resolves(QueryName(reversed, bl)) then multiset(lists)[bl] else 0)
    decreases |lists|
  {
    if |lists| > 0 {
      var init := lists[..|lists| - 1];
      ListedMultiplicity(reversed, init, resolves, bl);
      assert lists == init + [lists[|lists| - 1]];
    }
  }

  /** An oracle that always answers gives back the whole list; one that never
      answers gives nothing. */
  lemma {:induction false} ListedUnderConstantOracle(reversed: string, lists: seq<string>, resolves: string -> bool)
    ensures (forall q :: resolves(q)) ==> Listed(reversed, lists, resolves) == lists
    ensures (forall q :: !resolves(q)) ==> Listed(reversed, lists, resolves) == []
    decreases |lists|
  {
    if |lists| > 0 {
      ListedUnderConstantOracle(reversed, lists[..|lists| - 1], resolves);
      assert lists == lists[..|lists| - 1] + [lists[|lists| - 1]];
    }
  }

  /** The error event for an address that `ReverseIP` rejects. */
  const InvalidFormat := "Invalid IP address format"

  /** What one probe did: the query names it asked, in order, and the events it emitted. */
  datatype Probe = Probe(queries: seq<string>, results: seq<BlacklistResult>)

  /** The match events for `hits`, one per entry, in order. */
  function MatchEvents(ip: string, hits: seq<string>, now: string): (events: seq<BlacklistResult>)
    ensures |events| == |hits|
    ensures forall k :: 0 <= k < |hits| ==> events[k] == BlacklistResult(ip, hits[k], "", now)
  {
    seq(|hits|, (k: int) requires 0 <= k < |hits| => BlacklistResult(ip, hits[k], "", now))
  }

  /** The loop of `CheckIP` over the effective list: one query per entry, in
      order, and one match event per entry whose query resolved, in order. */
  method ProbeBlacklists(ip: string, reversed: string, all: seq<string>, resolves: string -> bool, now: string)
    returns (probe: Probe)
    ensures |probe.queries| == |all|
    ensures forall i :: 0 <= i < |all| ==> probe.queries[i] == QueryName(reversed, all[i])
    ensures probe.results == MatchEvents(ip, Listed(reversed, all, resolves), now)
  {
    var queries: seq<string> := [];
    var results: seq<BlacklistResult> := [];
    for i := 0 to |all|
      invariant |queries| == i
      invariant forall j :: 0 <= j < i ==> queries[j] == QueryName(reversed, all[j])
      invariant results == MatchEvents(ip, Listed(reversed, all[..i], resolves), now)
    {
      var fqdn := QueryName(reversed, all[i]);
      assert all[..i + 1][..i] == all[..i];
      queries := queries + [fqdn];
      if resolves(fqdn) {
        results := results + [BlacklistResult(ip, all[i], "", now)];
      }
    }
    assert all[..|all|] == all;
    probe := Probe(queries, results);
  }

  /** `CheckIP`: probe one address against every effective blacklist in turn.
      A malformed address yields exactly one error event and no lookup; a
      well-formed one asks exactly one query per effective entry and emits one
      event, carrying the address and no error, per entry that resolved. */
  method CheckIP(cfg: Config, ip: string, resolves: string -> bool, now: string) returns (probe: Probe)
    ensures ReverseIP(ip) == "" ==>
              probe == Probe([], [BlacklistResult(ip, "", InvalidFormat, now)])
    ensures ReverseIP(ip) != "" ==>
              var all := EffectiveBlacklists(cfg);
              var hits := Listed(ReverseIP(ip), all, resolves);
              && |probe.queries| == |all|
              && (forall i :: 0 <= i < |all| ==> probe.queries[i] == QueryName(ReverseIP(ip), all[i]))
              && |probe.results| == |hits|
              && (forall k :: 0 <= k < |hits| ==> probe.results[k] == BlacklistResult(ip, hits[k], "", now))
  {
    var reversed := ReverseIP(ip);
    if reversed == "" {
      return Probe([], [BlacklistResult(ip, "", InvalidFormat, now)]);
    }
    probe := ProbeBlacklists(ip, reversed, EffectiveBlacklists(cfg), resolves, now);
  }
}
