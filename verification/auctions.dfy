/** `visualize_auction_dict` and `update_auction` (hack_ui/app.py): the four
    upcoming-auction cards and the last-result card. */
module Auctions {
  import opened Widgets
  import opened Participants

  /** The fields of an auction the card reads. The two times are kept as the
      text that `format_simulation_time` would format. */
  datatype AuctionParams = AuctionParams(
    tenderAmountKw: real,
    minimumOrderAmountKw: real,
    gateClosureTime: string,
    supplyStartTime: string)

  /** An awarded order; only its list of agents is read. */
  datatype Order = Order(agents: seq<string>)

  /** One element of the results list. */
  datatype AuctionResult = AuctionResult(params: AuctionParams, clearingPrice: real, awardedOrders: seq<Order>)

  /** `is_result` together with the arguments only a result card uses. */
  datatype CardKind =
    | OpenAuction
    | ClearedAuction(clearingPrice: real, awardedOrders: seq<Order>, mapping: seq<Binding>)

  const OpenSlots := 4
  const NoAuctionYet := Placeholder("No auction yet")
  const NoResultYet := Placeholder("No result yet.")

  predicate SingleAgentOrders(orders: seq<Order>) {
    forall i | 0 <= i < |orders| :: |orders[i].agents| == 1
  }

  /** `set([...])` over the awarded orders: a single agent is renamed, any
      other agents list is itself the element, and hashing a list raises.
      The first such order in list order is the one reported. */
  function AwardedAgents(orders: seq<Order>, mapping: seq<Binding>): (r: Result<set<string>>)
    ensures r.Ok? <==> SingleAgentOrders(orders)
    ensures r.Ok? ==> |r.value| <= |orders|
  {
    if orders == [] then Ok({})
    else if |orders[0].agents| != 1 then Err(UnhashableList(orders[0].agents))
    else
      match AwardedAgents(orders[1..], mapping)
      case Err(e) => Err(e)
      case Ok(rest) => Ok({Rename(orders[0].agents[0], mapping)} + rest)
  }

  /** With single-agent orders only, the awarded set holds exactly the
      renamed agents of the orders, each once. */
  lemma {:induction false} AwardedAgentsMembers(orders: seq<Order>, mapping: seq<Binding>, name: string)
    requires SingleAgentOrders(orders)
    ensures name in AwardedAgents(orders, mapping).value <==>
      exists i | 0 <= i < |orders| :: name == Rename(orders[i].agents[0], mapping)
    decreases |orders|
  {
    if orders != [] {
      var tail := orders[1..];
      AwardedAgentsMembers(tail, mapping, name);
      if exists j | 0 <= j < |tail| :: name == Rename(tail[j].agents[0], mapping) {
        var j :| 0 <= j < |tail| && name == Rename(tail[j].agents[0], mapping);
        assert tail[j] == orders[j + 1];
      }
      if exists i | 1 <= i < |orders| :: name == Rename(orders[i].agents[0], mapping) {
        var i :| 1 <= i < |orders| && name == Rename(orders[i].agents[0], mapping);
        assert tail[i - 1] == orders[i];
      }
    }
  }

  /** An agents list of any length but one raises, and the first such order
      in the list is the one reported. */
  lemma {:induction false} AwardedAgentsError(orders: seq<Order>, mapping: seq<Binding>, k: int)
    requires 0 <= k < |orders| && |orders[k].agents| != 1
    requires SingleAgentOrders(orders[..k])
    ensures AwardedAgents(orders, mapping) == Err(UnhashableList(orders[k].agents))
    decreases k
  {
    if k > 0 {
      assert |orders[0].agents| == 1 by {
        assert orders[..k][0] == orders[0];
      }
      assert orders[1..][..k - 1] == orders[..k][1..];
      AwardedAgentsError(orders[1..], mapping, k - 1);
    }
  }

  /** The card has four rows: Amount first and Supply last, with
      Minimum/Closure or Awarded/Clearing Price between them. */
  predicate WellFormedCard(rows: seq<Row>) {
    && |rows| == 4
    && rows[0].title == "Amount"
    && rows[3].title == "Supply"
    && ((rows[1].title == "Minimum" && rows[2].title == "Closure")
        || (rows[1].title == "Awarded" && rows[2].title == "Clearing Price"))
  }

  /** `visualize_auction_dict`: the rows of an auction card. A result card
      fails exactly when some awarded order does not have one agent. */
  function VisualizeAuction(auction: AuctionParams, kind: CardKind): (r: Result<seq<Row>>)
    ensures r.Ok? <==> kind.OpenAuction? || SingleAgentOrders(kind.awardedOrders)
    ensures r.Ok? ==> WellFormedCard(r.value)
    ensures r.Ok? ==> r.value[0].value == Number(auction.tenderAmountKw)
    ensures r.Ok? ==> r.value[3].value == SimTime(auction.supplyStartTime)
    ensures r.Ok? ==> (r.value[1].title == "Awarded" <==> kind.ClearedAuction?)
    ensures r.Ok? && kind.OpenAuction? ==>
      r.value[1].value == Number(auction.minimumOrderAmountKw) && r.value[2].value == SimTime(auction.gateClosureTime)
    ensures r.Ok? && kind.ClearedAuction? ==>
      r.value[1].value == Agents(AwardedAgents(kind.awardedOrders, kind.mapping).value)
      && r.value[2].value == Number(kind.clearingPrice)
    ensures r.Err? ==> kind.ClearedAuction? && r == Err(AwardedAgents(kind.awardedOrders, kind.mapping).error)
  {
    var amount := Row("Amount", Number(auction.tenderAmountKw));
    var supply := Row("Supply", SimTime(auction.supplyStartTime));
    match kind
    case OpenAuction =>
      Ok([amount,
          Row("Minimum", Number(auction.minimumOrderAmountKw)),
          Row("Closure", SimTime(auction.gateClosureTime)),
          supply])
    case ClearedAuction(price, orders, mapping) =>
      match AwardedAgents(orders, mapping)
      case Err(e) => Err(e)
      case Ok(names) =>
        Ok([amount, Row("Awarded", Agents(names)), Row("Clearing Price", Number(price)), supply])
  }

  /** The card of an open auction (which never fails). */
  function OpenCard(auction: AuctionParams): (slot: Slot)
    ensures slot.Card? && WellFormedCard(slot.rows) && slot.rows[1].title == "Minimum"
  {
    Card(VisualizeAuction(auction, OpenAuction).value)
  }

  /** The fifth slot: the card of the last result, or the placeholder. */
  function ResultSlot(results: seq<AuctionResult>, mapping: seq<Binding>): Result<Slot>
  {
    if results == [] then Ok(NoResultYet)
    else
      var last := results[|results| - 1];
      match VisualizeAuction(last.params, ClearedAuction(last.clearingPrice, last.awardedOrders, mapping))
      case Ok(rows) => Ok(Card(rows))
      case Err(e) => Err(e)
  }

  /** What `update_auction` returns, stated slot by slot. */
  function AuctionSlots(open: seq<AuctionParams>, results: seq<AuctionResult>, mapping: seq<Binding>): Result<seq<Slot>>
  {
    if |open| > OpenSlots then Err(IndexOutOfRange(OpenSlots))
    else
      match ResultSlot(results, mapping)
      case Err(e) => Err(e)
      case Ok(last) =>
        Ok(seq(OpenSlots, i requires 0 <= i < OpenSlots => if i < |open| then OpenCard(open[i]) else NoAuctionYet) + [last])
  }

  /** `update_auction`: four placeholders overwritten by position with the
      open auctions, then the result slot appended. */
  method UpdateAuction(mapping: seq<Binding>, results: seq<AuctionResult>, open: seq<AuctionParams>)
    returns (r: Result<seq<Slot>>)
    ensures r == AuctionSlots(open, results, mapping)
  {
    var divs := new Slot[OpenSlots](_ => NoAuctionYet);
    for i := 0 to |open|
      invariant i <= divs.Length
      invariant forall k | 0 <= k < i :: divs[k] == OpenCard(open[k])
      invariant forall k | i <= k < divs.Length :: divs[k] == NoAuctionYet
    {
      var card := VisualizeAuction(open[i], OpenAuction);
      if i >= divs.Length {
        return Err(IndexOutOfRange(i));
      }
      divs[i] := Card(card.value);
    }
    var last: Slot;
    if |results| > 0 {
      var result := results[|results| - 1];
      var card := VisualizeAuction(result.params, ClearedAuction(result.clearingPrice, result.awardedOrders, mapping));
      if card.Err? {
        return Err(card.error);
      }
      last := Card(card.value);
    } else {
      last := NoResultYet;
    }
    assert divs[..] == seq(OpenSlots, i requires 0 <= i < OpenSlots => if i < |open| then OpenCard(open[i]) else NoAuctionYet);
    r := Ok(divs[..] + [last]);
  }

  /** The layout promised for every input: more than four open auctions
      raise; otherwise five slots, the open auctions first in response
      order, placeholders up to slot four, and the result slot last. */
  lemma SlotLayout(open: seq<AuctionParams>, results: seq<AuctionResult>, mapping: seq<Binding>)
    ensures |open| > 4 ==> AuctionSlots(open, results, mapping) == Err(IndexOutOfRange(4))
    ensures AuctionSlots(open, results, mapping).Ok? <==>
      |open| <= 4 && (results == [] || SingleAgentOrders(results[|results| - 1].awardedOrders))
    ensures AuctionSlots(open, results, mapping).Ok? ==>
      var slots := AuctionSlots(open, results, mapping).value;
      && |slots| == 5
      && (forall i | 0 <= i < |open| :: slots[i] == OpenCard(open[i]))
      && (forall i | |open| <= i < 4 :: slots[i] == NoAuctionYet)
      && (results == [] ==> slots[4] == NoResultYet)
      && (results != [] ==> slots[4].Card? && WellFormedCard(slots[4].rows) && slots[4].rows[1].title == "Awarded")
      && (results != [] ==>
            var last := results[|results| - 1];
            slots[4] == Card(VisualizeAuction(last.params, ClearedAuction(last.clearingPrice, last.awardedOrders, mapping)).value))
  {
  }

  /** The five output regions in the order the callback declares them: card
      "Auction k" shows the auction processed in k steps. */
  datatype AuctionPanel = AuctionPanel(auction1: Slot, auction2: Slot, auction3: Slot, auction4: Slot, lastResult: Slot)

  function ToPanel(slots: seq<Slot>): AuctionPanel
    requires |slots| == 5
  {
    AuctionPanel(slots[0], slots[1], slots[2], slots[3], slots[4])
  }

  /** The card titled "Auction k". */
  function AuctionCard(panel: AuctionPanel, k: int): Slot
    requires 1 <= k <= 4
  {
    match k
    case 1 => panel.auction1
    case 2 => panel.auction2
    case 3 => panel.auction3
    case 4 => panel.auction4
  }

  /** "Auction k" shows the k-th open auction of the response, or the
      placeholder when there are fewer than k, and "Last Auction Result" the
      fifth slot. */
  lemma PanelShowsAuctionsInOrder(open: seq<AuctionParams>, results: seq<AuctionResult>, mapping: seq<Binding>, k: int)
    requires AuctionSlots(open, results, mapping).Ok?
    requires 1 <= k <= 4
    ensures |AuctionSlots(open, results, mapping).value| == 5
    ensures AuctionCard(ToPanel(AuctionSlots(open, results, mapping).value), k)
      == if k <= |open| then OpenCard(open[k - 1]) else NoAuctionYet
    ensures ToPanel(AuctionSlots(open, results, mapping).value).lastResult == ResultSlot(results, mapping).value
  {
  }
}
