/** The bid codec and the off-chain winner selection of the demo script
    (scripts/demoAuction.ts). Deployment, signers and transactions are left
    out; the contract is replaced by what it hands back: the bidders in the
    order they bid, each with the bytes it stored, read as "0x" hex. */
module Demo {
  import opened Wrappers
  import opened Bytes
  import opened Hex
  import opened JsBuffers
  import Tally
  import Frontend

  type Address = Frontend.Address

  /** encodeBid: allocate a zeroed 32-byte buffer and let a DataView write the
      amount into its last 8 bytes. The result is byte for byte what the front
      end's encodeBid builds. */
  method EncodeBid(amount: int) returns (buf: array<byte>)
    ensures fresh(buf)
    ensures buf[..] == Frontend.EncodeBid(amount)
  {
    buf := new byte[32](_ => 0);
    assert buf[..] == Zeros(32);
    SetBigUint64At(buf, 24, amount);
  }

  /** decodeBid: reassign hex without its "0x", parse it into bytes, cut the
      underlying ArrayBuffer to bytes 24..31 and read them with a DataView. It
      returns (or throws) exactly what the front end's decodeBid does.
      The script slices the whole ArrayBuffer behind the Uint8Array, where the
      front end slices the Uint8Array and takes its buffer. Both come to the
      same Slice of the parsed bytes because `Uint8Array.from` allocates a
      fresh buffer of exactly as many bytes as it holds, starting at offset 0,
      so buffer and array cover the same bytes; the agreement of the two
      decoders rests on that fact. */
  method DecodeBid(hex: string) returns (r: Result<nat, JsError>)
    requires IsHexText(StripPrefix(hex))
    ensures r == Frontend.DecodeBid(hex)
  {
    var h := hex;
    if |h| >= 2 && h[..2] == "0x" {
      h := h[2..];
    }
    var parsed := ParseHex(h);
    if parsed.None? {
      return Err(TypeError);
    }
    var buf := Slice(parsed.value, 24, 32);
    r := GetBigUint64(buf, 0);
    Frontend.ReadSlotByDataView(parsed.value);
  }

  /** What main reports: the winner (null when nobody bid) and the highest bid
      (-1 when nobody bid). */
  datatype Outcome = Outcome(winner: Option<Address>, highestBid: int)

  /** The decode-and-select loop of main: decode every bid in bidder order,
      and replace the highest bid and its bidder only on a strictly larger
      amount. A bid that fails to decode throws out of main. */
  method SelectWinner(bids: seq<(Address, string)>) returns (r: Result<Outcome, JsError>)
    requires Frontend.AllHex(bids)
    ensures r.Err? <==> Frontend.DecodeAll(bids).Err?
    ensures r.Err? ==> r.error == Frontend.DecodeAll(bids).error
    ensures r.Ok? ==> r.value.highestBid == Tally.Highest(Frontend.DecodeAll(bids).value)
    ensures r.Ok? ==> (r.value.winner == None <==> bids == [])
    ensures r.Ok? && bids != [] ==>
      r.value.winner == Some(bids[Tally.WinnerIndex(Frontend.DecodeAll(bids).value)].0)
  {
    var highestBid: int := -1;
    var winner: Option<Address> := None;
    ghost var outcomes := Frontend.Outcomes(bids);
    ghost var amounts: seq<nat> := [];
    for i := 0 to |bids|
      invariant Frontend.Collect(outcomes, i) == Ok(amounts)
      invariant highestBid == Tally.Highest(amounts)
      invariant i == 0 ==> winner == None
      invariant i > 0 ==> winner == Some(bids[Tally.WinnerIndex(amounts)].0)
    {
      var addr := bids[i].0;
      var decoded := DecodeBid(bids[i].1);
      if decoded.Err? {
        Frontend.CollectErrorStays(outcomes, i + 1, |bids|);
        return Err(decoded.error);
      }
      var amount := decoded.value;
      Frontend.CollectSnoc(outcomes, i, amounts, amount);
      assert Tally.Highest(amounts + [amount]) == if amount > highestBid then amount else highestBid by {
        Tally.HighestSnoc(amounts, amount);
      }
      assert Tally.WinnerIndex(amounts + [amount]) == if amount > highestBid then i else Tally.WinnerIndex(amounts) by {
        Tally.WinnerIndexSnoc(amounts, amount);
      }
      if amount > highestBid {
        highestBid := amount;
        winner := Some(addr);
      }
      amounts := amounts + [amount];
    }
    r := Ok(Outcome(winner, highestBid));
  }

  /** main, from the three example amounts through the decode loop, with
      the amounts left open and the contract replaced by what it hands back:
      bidders 1, 2 and 3 each submit the encoding of their amount, in that
      order, and the loop reads them back. The bidder with the first highest
      amount, reduced modulo 2^64 as setBigUint64 does, wins with that
      amount. */
  method PlaceAndSelect(bidder1: Address, bidder2: Address, bidder3: Address, bid1: int, bid2: int, bid3: int)
    returns (r: Result<Outcome, JsError>)
    ensures var amounts := [bid1 % TWO_64, bid2 % TWO_64, bid3 % TWO_64];
      r == Ok(Outcome(Some([bidder1, bidder2, bidder3][Tally.WinnerIndex(amounts)]), Tally.Highest(amounts)))
  {
    var enc1 := EncodeBid(bid1);
    var enc2 := EncodeBid(bid2);
    var enc3 := EncodeBid(bid3);
    var bids := [(bidder1, WireHex(enc1[..])), (bidder2, WireHex(enc2[..])), (bidder3, WireHex(enc3[..]))];
    ghost var amounts: seq<nat> := [bid1 % TWO_64, bid2 % TWO_64, bid3 % TWO_64];
    assert Frontend.AllHex(bids) && Frontend.DecodeAll(bids) == Ok(amounts) by {
      forall i | 0 <= i < |bids|
        ensures amounts[i] < TWO_64 && bids[i].1 == WireHex(Frontend.EncodeBid(amounts[i]))
      {
        if i == 0 {
          Frontend.EncodeBidWraps(bid1);
        } else if i == 1 {
          Frontend.EncodeBidWraps(bid2);
        } else {
          Frontend.EncodeBidWraps(bid3);
        }
      }
      Frontend.DecodeAllEncoded(bids, amounts);
    }
    r := SelectWinner(bids);
  }

  /** main's own amounts: bidders 1, 2 and 3 bid 100, 250 and 180, and the
      loop names bidder 2 with 250. */
  method RunAuction(bidder1: Address, bidder2: Address, bidder3: Address) returns (r: Result<Outcome, JsError>)
    ensures r == Ok(Outcome(Some(bidder2), 250))
  {
    r := PlaceAndSelect(bidder1, bidder2, bidder3, 100, 250, 180);
    Tally.DemoScenario();
  }
}
