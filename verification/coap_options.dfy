/** The option list of a packet: what any sequence of `AddOption` calls makes of it. */
module CoapOptions {
  import opened Bytes
  import opened CoapWire
  import opened CoapRoundTrip

  const OPTION_MAX_NUMBER := 60
  const OPTION_MAX_LENGTH := 256

  ghost predicate Sorted(options: seq<Opt>) {
    forall i, j :: 0 <= i < j < |options| ==> options[i].number <= options[j].number
  }

  predicate Addable(o: Opt) { o.number <= OPTION_MAX_NUMBER && |o.value| <= OPTION_MAX_LENGTH }

  /** One call that asks for option `number` with `value`. */
  datatype Request = Request(number: nat, value: seq<byte>)

  predicate Accepts(r: Request) { r.number <= OPTION_MAX_NUMBER && |r.value| <= OPTION_MAX_LENGTH }

  /**
   The effect of one call on the list. The order of options with equal numbers is
   left open, as the library sort leaves it.
   */
  ghost predicate Adds(before: seq<Opt>, r: Request, after: seq<Opt>) {
    if Accepts(r) then
      && Sorted(after)
      && multiset(after) == multiset(before) + multiset{Opt(r.number, r.value)}
    else after == before
  }

  ghost function Accepted(requests: seq<Request>): multiset<Opt> {
    if requests == [] then multiset{}
    else
      var r := requests[|requests| - 1];
      Accepted(requests[..|requests| - 1])
      + if Accepts(r) then multiset{Opt(r.number, r.value)} else multiset{}
  }

  /** The lists a packet without options goes through under a sequence of calls. */
  ghost predicate IsRun(lists: seq<seq<Opt>>, requests: seq<Request>) {
    && |lists| == |requests| + 1 && lists[0] == []
    && forall i :: 0 <= i < |requests| ==> Adds(lists[i], requests[i], lists[i + 1])
  }

  lemma EarlierRun(lists: seq<seq<Opt>>, requests: seq<Request>)
    requires IsRun(lists, requests) && requests != []
    ensures var n := |requests|;
            IsRun(lists[..n], requests[..n - 1]) && Adds(lists[n - 1], requests[n - 1], lists[n])
  {
    hide Adds;
    var n := |requests|;
    assert forall i :: 0 <= i < n - 1 ==> Adds(lists[..n][i], requests[..n - 1][i], lists[..n][i + 1]);
  }

  lemma AddKeepsAddable(before: seq<Opt>, r: Request, after: seq<Opt>)
    requires Adds(before, r, after) && forall o :: o in before ==> Addable(o)
    ensures forall o :: o in after ==> Addable(o)
  {
    forall o | o in after ensures Addable(o) {
      assert o in multiset(after);
      assert o in multiset(before) || o == Opt(r.number, r.value);
    }
  }

  /** Over every run the list is sorted and holds exactly what the accepted calls asked for. */
  lemma {:induction false} RunKeepsOrderAndContents(lists: seq<seq<Opt>>, requests: seq<Request>)
    requires IsRun(lists, requests)
    ensures var last := lists[|requests|];
            && Sorted(last) && multiset(last) == Accepted(requests)
            && forall o :: o in last ==> Addable(o)
  {
    var n := |requests|;
    if n > 0 {
      EarlierRun(lists, requests);
      RunKeepsOrderAndContents(lists[..n], requests[..n - 1]);
      AddKeepsAddable(lists[n - 1], requests[n - 1], lists[n]);
      hide Sorted, Addable, IsRun;
    }
  }

  /** A sorted list of options that `AddOption` accepts survives the wire on every host. */
  lemma {:induction false} BuiltOptionsSurvive(previous: uint16, options: seq<Opt>, littleEndian: bool)
    requires Sorted(options) && forall o :: o in options ==> Addable(o)
    requires options != [] ==> previous <= options[0].number
    ensures OptionsSurvive(previous, options, littleEndian)
    decreases |options|
  {
    if options != [] {
      var rest := options[1..];
      assert options[0] in options;
      forall o | o in rest ensures o in options {}
      BuiltOptionsSurvive(options[0].number, rest, littleEndian);
    }
  }

  /** In a sorted list the positions of one option number are contiguous. */
  lemma RunIsContiguous(options: seq<Opt>, i: nat, j: nat, k: nat)
    requires Sorted(options) && i <= j <= k < |options|
    requires options[i].number == options[k].number
    ensures options[j].number == options[i].number
  {
  }

  /** Insertion before the first option with a larger number. */
  function Insert(o: Opt, options: seq<Opt>): seq<Opt>
    decreases |options|
  {
    if options == [] || o.number < options[0].number then [o] + options
    else [options[0]] + Insert(o, options[1..])
  }

  lemma {:induction false} InsertContents(o: Opt, options: seq<Opt>)
    ensures multiset(Insert(o, options)) == multiset(options) + multiset{o}
    decreases |options|
  {
    if options != [] && options[0].number <= o.number {
      InsertContents(o, options[1..]);
      assert options == [options[0]] + options[1..];
    }
  }

  lemma InsertKeepsBound(o: Opt, options: seq<Opt>, least: uint16)
    requires least <= o.number && forall k :: 0 <= k < |options| ==> least <= options[k].number
    ensures forall k :: 0 <= k < |Insert(o, options)| ==> least <= Insert(o, options)[k].number
  {
    InsertContents(o, options);
    var all := Insert(o, options);
    hide Insert;
    forall k | 0 <= k < |all| ensures least <= all[k].number {
      assert all[k] in multiset(all);
      assert all[k] == o || all[k] in options;
    }
  }

  lemma {:induction false} InsertSorts(o: Opt, options: seq<Opt>)
    requires Sorted(options)
    ensures Sorted(Insert(o, options))
    decreases |options|
  {
    if options != [] && options[0].number <= o.number {
      InsertSorts(o, options[1..]);
      InsertKeepsBound(o, options[1..], options[0].number);
    }
  }

  /** A sort by option number; `SortOptions` of the packet promises its order and contents only. */
  function Sort(options: seq<Opt>): seq<Opt>
    decreases |options|
  {
    if options == [] then []
    else Insert(options[|options| - 1], Sort(options[..|options| - 1]))
  }

  lemma SortLast(options: seq<Opt>)
    requires options != []
    ensures var n := |options| - 1; Sort(options) == Insert(options[n], Sort(options[..n]))
  {
    hide Insert;
  }

  lemma ContentsLast(options: seq<Opt>)
    requires options != []
    ensures var n := |options| - 1; multiset(options) == multiset(options[..n]) + multiset{options[n]}
  {
    var n := |options| - 1;
    assert options == options[..n] + [options[n]];
  }

  lemma {:induction false} SortSorts(options: seq<Opt>)
    ensures Sorted(Sort(options)) && multiset(Sort(options)) == multiset(options)
    decreases |options|
  {
    if options == [] {
    } else {
      hide Insert, Sort, Sorted;
      var n := |options| - 1;
      SortSorts(options[..n]);
      SortLast(options);
      ContentsLast(options);
      InsertSorts(options[n], Sort(options[..n]));
      InsertContents(options[n], Sort(options[..n]));
    }
  }
}
