/** pkg/utils/ip.go: `ParseInput` (the shared expander with this file's error
    texts) and the report formatters `FormatResults`, `formatJSON`, `formatText`. */
module Utils {
  import opened Results
  import opened Models
  import opened Strings
  import opened Addresses

  /** The error texts of pkg/utils/ip.go (lower-case, unlike main.go's). */
  function ErrorMessage(e: InputError): string
  {
    match e
    case InvalidAddress(arg) => "invalid IP address: " + arg
    case InvalidSubnet(arg) => "invalid subnet format: " + arg
    case UnsupportedPrefix => "only /24 subnet is supported"
  }

  /** `ParseInput`: the expansion of `arg`, or the reason it was refused. */
  function ParseInput(arg: string, parseIP: string -> Option<IPv4>, parseCIDR: string -> CidrParse)
    : (r: Result<Expansion, string>)
    ensures '/' !in arg && parseIP(arg).Some? ==>
              var text := Dotted(parseIP(arg).value);
              r == Success(Expansion([text], text))
    ensures '/' !in arg && parseIP(arg).None? ==> r == Failure("invalid IP address: " + arg)
    ensures '/' in arg && parseCIDR(arg).CidrRejected? ==> r == Failure("invalid subnet format: " + arg)
    ensures '/' in arg && !parseCIDR(arg).CidrRejected? && MaskSize(parseCIDR(arg)) != (24, 32) ==>
              r == Failure("only /24 subnet is supported")
    ensures '/' in arg && !parseCIDR(arg).CidrRejected? && MaskSize(parseCIDR(arg)) == (24, 32) ==>
              var base := parseCIDR(arg).ip;
              && r.Success?
              && |r.value.addresses| == 256
              && (forall i: Octet :: r.value.addresses[i] == Dotted(SubnetHost(base, i)))
              && r.value.subnetOrIP == CidrLabel(SubnetHost(base, 0), 24)
  {
    match Expand(arg, parseIP, parseCIDR)
    case Success(expansion) => Success(expansion)
    case Failure(e) => Failure(ErrorMessage(e))
  }

  /** Go's `range` over a map visits every key exactly once, in an order the
      program does not choose; `order` is that visiting order. */
  predicate IsIterationOrder<V>(order: seq<string>, m: map<string, V>)
  {
    && (forall i, j :: 0 <= i < j < |order| ==> order[i] != order[j])
    && (forall k :: k in m ==> k in order)
    && (forall i :: 0 <= i < |order| ==> order[i] in m)
  }

  /** The lines `formatText` writes for one address, without their newlines. */
  function EntryLines(ip: string, blacklists: seq<string>): (lines: seq<string>)
  {
    ["IP: " + ip, "Blacklisted in:"]
      + seq(|blacklists|, (k: int) requires 0 <= k < |blacklists| => "  - " + blacklists[k])
      + [""]
  }

  /** The lines of the whole text report, entry after entry in visiting order. */
  function TextLines(results: map<string, seq<string>>, order: seq<string>): seq<string>
    requires forall i :: 0 <= i < |order| ==> order[i] in results
  {
    if |order| == 0 then []
    else EntryLines(order[0], results[order[0]]) + TextLines(results, order[1..])
  }

  /** Every line followed by its newline, as successive `WriteString` calls build it. */
  function Unlines(lines: seq<string>): string
  {
    if |lines| == 0 then "" else lines[0] + "\n" + Unlines(lines[1..])
  }

  /** `formatText`: the text report. It cannot fail, and an empty map gives
      the empty text. */
  function FormatText(results: map<string, seq<string>>, order: seq<string>): (r: Result<string, string>)
    requires IsIterationOrder(order, results)
    ensures r.Success?
    ensures |results| == 0 ==> r.value == ""
  {
    Success(Unlines(TextLines(results, order)))
  }

  /** `formatJSON`: the serialiser `marshal` (Go's `json.MarshalIndent`) with
      its failure wrapped in this file's message. */
  function FormatJSON(results: map<string, seq<string>>, marshal: map<string, seq<string>> -> Result<string, string>)
    : (r: Result<string, string>)
    ensures r.Success? <==> marshal(results).Success?
    ensures r.Success? ==> r.value == marshal(results).value
    ensures r.Failure? ==> r.error == "error formatting JSON: " + marshal(results).error
  {
    match marshal(results)
    case Success(data) => Success(data)
    case Failure(e) => Failure("error formatting JSON: " + e)
  }

  const UnsupportedFormat := "unsupported output format: "

  /** `FormatResults`: only "json" and "text" are accepted; any other format
      is refused with the unsupported-format message, and only it is. */
  function FormatResults(
    results: map<string, seq<string>>,
    format: string,
    order: seq<string>,
    marshal: map<string, seq<string>> -> Result<string, string>)
    : (r: Result<string, string>)
    requires IsIterationOrder(order, results)
    ensures (format != "json" && format != "text") <==> r == Failure(UnsupportedFormat + format)
    ensures format == "text" ==> r == FormatText(results, order)
    ensures format == "json" ==> r == FormatJSON(results, marshal)
  {
    if format == "json" then
      var j := FormatJSON(results, marshal);
      assert j.Failure? ==> j.error[0] == 'e';
      assert (UnsupportedFormat + format)[0] == 'u';
      j
    else if format == "text" then FormatText(results, order)
    else Failure(UnsupportedFormat + format)
  }

  // ----- the shape of the text report -----

  lemma {:induction false} TextLinesConcat(results: map<string, seq<string>>, a: seq<string>, b: seq<string>)
    requires forall i :: 0 <= i < |a| ==> a[i] in results
    requires forall i :: 0 <= i < |b| ==> b[i] in results
    ensures TextLines(results, a + b) == TextLines(results, a) + TextLines(results, b)
    decreases |a|
  {
    if |a| == 0 {
      assert a + b == b;
    } else {
      assert (a + b)[1..] == a[1..] + b;
      TextLinesConcat(results, a[1..], b);
    }
  }

  lemma TextLinesAround(results: map<string, seq<string>>, order: seq<string>, i: nat)
    requires forall k :: 0 <= k < |order| ==> order[k] in results
    requires i < |order|
    ensures TextLines(results, order) ==
            TextLines(results, order[..i]) + EntryLines(order[i], results[order[i]]) + TextLines(results, order[i + 1..])
  {
    var before, after := order[..i], order[i + 1..];
    var tail := order[i..];
    assert order == before + tail;
    assert tail[0] == order[i] && tail[1..] == after;
    var block := EntryLines(order[i], results[order[i]]);
    assert TextLines(results, tail) == block + TextLines(results, after);
    TextLinesConcat(results, before, tail);
    assert TextLines(results, before) + (block + TextLines(results, after)) ==
           TextLines(results, before) + block + TextLines(results, after);
  }

  /** For every address, `formatText` writes `IP: <ip>`, `Blacklisted in:`,
      one `  - <bl>` line per blacklist in list order, then a blank line, as one
      contiguous block between the blocks of the addresses visited before and after. */
  lemma {:induction false} FormatTextEntries(results: map<string, seq<string>>, order: seq<string>, i: nat)
    requires IsIterationOrder(order, results)
    requires i < |order|
    ensures var ip := order[i];
            var bls := results[ip];
            var block := EntryLines(ip, bls);
            && |block| == 3 + |bls|
            && block[0] == "IP: " + ip
            && block[1] == "Blacklisted in:"
            && (forall k :: 0 <= k < |bls| ==> block[2 + k] == "  - " + bls[k])
            && block[2 + |bls|] == ""
            && TextLines(results, order) ==
                 TextLines(results, order[..i]) + block + TextLines(results, order[i + 1..])
  {
    TextLinesAround(results, order, i);
  }

  /** The number of report lines an order produces: 3 + |list| per entry. */
  function LineTotal(results: map<string, seq<string>>, order: seq<string>): nat
    requires forall i :: 0 <= i < |order| ==> order[i] in results
  {
    if |order| == 0 then 0 else 3 + |results[order[0]]| + LineTotal(results, order[1..])
  }

  lemma {:induction false} LineTotalConcat(results: map<string, seq<string>>, a: seq<string>, b: seq<string>)
    requires forall i :: 0 <= i < |a| ==> a[i] in results
    requires forall i :: 0 <= i < |b| ==> b[i] in results
    ensures LineTotal(results, a + b) == LineTotal(results, a) + LineTotal(results, b)
    decreases |a|
  {
    if |a| == 0 {
      assert a + b == b;
    } else {
      assert (a + b)[1..] == a[1..] + b;
      LineTotalConcat(results, a[1..], b);
    }
  }

  lemma {:induction false} TextLinesCount(results: map<string, seq<string>>, order: seq<string>)
    requires forall i :: 0 <= i < |order| ==> order[i] in results
    ensures |TextLines(results, order)| == LineTotal(results, order)
    decreases |order|
  {
    if |order| > 0 {
      TextLinesCount(results, order[1..]);
    }
  }

  /** Taking one element out of a duplicate-free sequence leaves the others,
      still without duplicates. */
  lemma RemoveAt(o: seq<string>, j: nat)
    requires j < |o|
    requires forall i, i' :: 0 <= i < i' < |o| ==> o[i] != o[i']
    ensures var rest := o[..j] + o[j + 1..];
            && (forall i, i' :: 0 <= i < i' < |rest| ==> rest[i] != rest[i'])
            && (forall k :: k in rest <==> k in o && k != o[j])
  {
    var rest := o[..j] + o[j + 1..];
    assert forall i :: 0 <= i < |rest| ==> rest[i] == o[if i < j then i else i + 1];
    forall k | k in o && k != o[j]
      ensures k in rest
    {
      var m :| 0 <= m < |o| && o[m] == k;
      assert rest[if m < j then m else m - 1] == k;
    }
  }

  lemma LineTotalRemove(results: map<string, seq<string>>, o: seq<string>, j: nat)
    requires j < |o|
    requires forall i :: 0 <= i < |o| ==> o[i] in results
    ensures LineTotal(results, o) ==
            3 + |results[o[j]]| + LineTotal(results, o[..j] + o[j + 1..])
  {
    var tail := [o[j]] + o[j + 1..];
    assert o == o[..j] + tail;
    assert tail[1..] == o[j + 1..];
    LineTotalConcat(results, o[..j], tail);
    LineTotalConcat(results, o[..j], o[j + 1..]);
  }

  /** Two duplicate-free orders of the same keys give the same line total. */
  lemma {:induction false} LineTotalOrderFree(results: map<string, seq<string>>, o1: seq<string>, o2: seq<string>)
    requires forall i :: 0 <= i < |o1| ==> o1[i] in results
    requires forall i, j :: 0 <= i < j < |o1| ==> o1[i] != o1[j]
    requires forall i, j :: 0 <= i < j < |o2| ==> o2[i] != o2[j]
    requires forall k :: k in o1 <==> k in o2
    ensures forall i :: 0 <= i < |o2| ==> o2[i] in results
    ensures LineTotal(results, o1) == LineTotal(results, o2)
    decreases |o1|
  {
    assert forall i :: 0 <= i < |o2| ==> o2[i] in o1;
    if |o1| > 0 {
      var x := o1[0];
      assert x in o2;
      var j :| 0 <= j < |o2| && o2[j] == x;
      RemoveAt(o1, 0);
      RemoveAt(o2, j);
      assert o1[..0] + o1[1..] == o1[1..];
      LineTotalOrderFree(results, o1[1..], o2[..j] + o2[j + 1..]);
      LineTotalRemove(results, o2, j);
    }
  }

  /** `formatText` writes exactly 3 + |list| lines per address, whatever order
      the map is visited in: the line count is the same for every visiting order. */
  lemma FormatTextLineCount(results: map<string, seq<string>>, order: seq<string>, other: seq<string>)
    requires IsIterationOrder(order, results)
    requires IsIterationOrder(other, results)
    ensures |TextLines(results, order)| == LineTotal(results, order)
    ensures |TextLines(results, order)| == |TextLines(results, other)|
  {
    TextLinesCount(results, order);
    TextLinesCount(results, other);
    LineTotalOrderFree(results, order, other);
  }

  lemma {:induction false} UnlinesIsJoin(lines: seq<string>)
    ensures Unlines(lines) == Join(lines + [""], '\n')
    decreases |lines|
  {
    if |lines| > 0 {
      UnlinesIsJoin(lines[1..]);
      assert (lines + [""])[1..] == lines[1..] + [""];
    }
  }

  /** When no address or blacklist name holds a newline, splitting the report on
      newlines gives back exactly its lines, followed by the empty text after the
      last newline. */
  lemma FormatTextSplitsIntoLines(results: map<string, seq<string>>, order: seq<string>)
    requires IsIterationOrder(order, results)
    requires forall ip :: ip in results ==> '\n' !in ip
    requires forall ip, k :: ip in results && 0 <= k < |results[ip]| ==> '\n' !in results[ip][k]
    ensures Split(FormatText(results, order).value, '\n') == TextLines(results, order) + [""]
  {
    var lines := TextLines(results, order);
    TextLinesNoNewline(results, order);
    UnlinesIsJoin(lines);
    SplitJoin(lines + [""], '\n');
  }

  lemma {:induction false} TextLinesNoNewline(results: map<string, seq<string>>, order: seq<string>)
    requires forall i :: 0 <= i < |order| ==> order[i] in results
    requires forall ip :: ip in results ==> '\n' !in ip
    requires forall ip, k :: ip in results && 0 <= k < |results[ip]| ==> '\n' !in results[ip][k]
    ensures forall i :: 0 <= i < |TextLines(results, order)| ==> '\n' !in TextLines(results, order)[i]
    decreases |order|
  {
    if |order| > 0 {
      TextLinesNoNewline(results, order[1..]);
      var ip := order[0];
      var block := EntryLines(ip, results[ip]);
      forall i | 0 <= i < |block|
        ensures '\n' !in block[i]
      {
        if i == 0 {
          assert block[0] == "IP: " + ip;
        } else if 2 <= i < 2 + |results[ip]| {
          assert block[i] == "  - " + results[ip][i - 2];
        }
      }
    }
  }
}
