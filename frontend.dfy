/** The bid codec and the off-chain winner selection of the browser front end
    (frontend/src/App.tsx). The contract calls of fetchAndDecode are replaced
    by their results: the bidder list, in the order getBidders returns it,
    each bidder paired with the hex string getEncryptedBid returns for it. */
module Frontend {
  import opened Wrappers
  import opened Bytes
  import opened Hex
  import opened JsBuffers
  import Tally

  type Address = string

  /** encodeBid: a zeroed 32-byte buffer with the amount, reduced modulo 2^64
      by setBigUint64, in its last 8 bytes, most significant byte first. */
  function EncodeBid(amount: int): (r: seq<byte>)
    ensures |r| == 32
    ensures forall i :: 0 <= i < 24 ==> r[i] == 0
    ensures r[24..] == BeBytes(amount % TWO_64, 8)
  {
    SetBigUint64(Zeros(32), 24, amount)
  }

  /** setBigUint64 keeps only the amount modulo 2^64, so amounts that agree
      modulo 2^64 encode to the same payload. */
  lemma EncodeBidWraps(amount: int)
    ensures EncodeBid(amount) == EncodeBid(amount % TWO_64)
  {
    var r, w := EncodeBid(amount), EncodeBid(amount % TWO_64);
    assert r[..24] == w[..24];
    assert r == r[..24] + r[24..];
    assert w == w[..24] + w[24..];
  }

  /** For an amount that fits in 64 bits, byte 24 + i of the slot is digit
      7 - i of the amount in base 256. */
  lemma EncodeBidBigEndian(amount: int, i: nat)
    requires 0 <= amount < TWO_64 && i < 8
    ensures EncodeBid(amount)[24 + i] == (amount / Pow256(7 - i)) % 256
  {
    var r := EncodeBid(amount);
    assert r[24..] == BeBytes(amount, 8) by {
      assert amount % TWO_64 == amount;
    }
    assert r[24 + i] == BeBytes(amount, 8)[i];
    BeBytesAt(amount, 8, i);
  }

  /** encodeBid keeps order: for amounts a < b that fit in 64 bits, the
      payload of a comes before the payload of b byte by byte. */
  lemma EncodeBidOrder(a: int, b: int)
    requires 0 <= a < b < TWO_64
    ensures LexLess(EncodeBid(a), EncodeBid(b))
  {
    var x, y := EncodeBid(a), EncodeBid(b);
    Pow256Eight();
    assert x[24..] == BeBytes(a, 8) && y[24..] == BeBytes(b, 8) by {
      assert a % TWO_64 == a && b % TWO_64 == b;
    }
    assert x[..24] == y[..24];
    assert x == x[..24] + BeBytes(a, 8) && y == x[..24] + BeBytes(b, 8);
    BeBytesOrder(a, b, 8);
    LexLessPrefix(x[..24], BeBytes(a, 8), BeBytes(b, 8));
  }

  /** What cutting the parsed bytes to positions 24..31 with a clamping
      `slice` and reading the result with `DataView.getBigUint64` at offset 0
      gives: the big-endian value of bytes 24..31, whatever the other bytes
      hold, and a RangeError for fewer than 32 bytes (ReadSlotByDataView
      relates it to the two buffer operations). */
  function ReadSlot(bytes: seq<byte>): (r: Result<nat, JsError>)
    ensures r.Ok? <==> |bytes| >= 32
    ensures r.Err? ==> r.error == RangeError
    ensures r.Ok? ==> r.value < TWO_64
  {
    Pow256Eight();
    if |bytes| < 32 then Err(RangeError) else Ok(BeValue(bytes[24..32]))
  }

  /** Cutting the buffer to bytes 24..31 with the clamping slice and reading a
      big-endian 64-bit value at offset 0 is exactly ReadSlot. */
  lemma ReadSlotByDataView(bytes: seq<byte>)
    ensures ReadSlot(bytes) == GetBigUint64(Slice(bytes, 24, 32), 0)
  {
    var slice := Slice(bytes, 24, 32);
    if |bytes| >= 32 {
      assert slice[0..8] == bytes[24..32];
    }
  }

  /** decodeBid: drop one "0x", parse two hex digits per byte, read the slot.
      It throws a TypeError on empty text (the regular expression finds no
      match) and a RangeError when fewer than 32 bytes come out, which with a
      shorter last chunk means fewer than 63 digits. */
  function DecodeBid(hex: string): (r: Result<nat, JsError>)
    requires IsHexText(StripPrefix(hex))
    ensures r.Ok? <==> |StripPrefix(hex)| >= 63
    ensures r.Ok? ==> r.value < TWO_64
  {
    match ParseHex(StripPrefix(hex))
    case None => Err(TypeError)
    case Some(bytes) => ReadSlot(bytes)
  }

  /** Which exception decodeBid throws: a TypeError for nothing after the
      prefix, a RangeError for 1 to 62 digits. */
  lemma DecodeBidErrors(hex: string)
    requires IsHexText(StripPrefix(hex))
    ensures StripPrefix(hex) == "" ==> DecodeBid(hex) == Err(TypeError)
    ensures 0 < |StripPrefix(hex)| < 63 ==> DecodeBid(hex) == Err(RangeError)
  {
  }

  /** What decodeBid returns: bytes 24..31 of the parse, read big-endian. */
  lemma DecodeBidValue(hex: string)
    requires IsHexText(StripPrefix(hex)) && |StripPrefix(hex)| >= 63
    ensures DecodeBid(hex) == Ok(BeValue(ParseChunks(StripPrefix(hex))[24..32]))
  {
  }

  /** Only hex digits 48..63 (bytes 24..31) decide the amount: the 24 bytes of
      padding before them and anything after them are ignored. */
  lemma DecodeBidIgnoresPadding(hex1: string, hex2: string)
    requires IsHexText(StripPrefix(hex1)) && IsHexText(StripPrefix(hex2))
    requires |StripPrefix(hex1)| >= 64 && |StripPrefix(hex2)| >= 64
    requires StripPrefix(hex1)[48..64] == StripPrefix(hex2)[48..64]
    ensures DecodeBid(hex1) == DecodeBid(hex2)
  {
    var h, g := StripPrefix(hex1), StripPrefix(hex2);
    forall i | 24 <= i < 32
      ensures ParseChunks(h)[i] == ParseChunks(g)[i]
    {
      assert h[2 * i] == h[48..64][2 * i - 48] == g[2 * i];
      assert h[2 * i + 1] == h[48..64][2 * i + 1 - 48] == g[2 * i + 1];
    }
    assert ParseChunks(h)[24..32] == ParseChunks(g)[24..32];
    DecodeBidValue(hex1);
    DecodeBidValue(hex2);
  }

  /** Round trip: the hex form of an encoded bid, as the contract hands it
      back, decodes to the amount modulo 2^64, so to the amount itself
      whenever it fits in 64 bits. */
  lemma RoundTrip(amount: int)
    ensures DecodeBid(WireHex(EncodeBid(amount))) == Ok(amount % TWO_64)
    ensures 0 <= amount < TWO_64 ==> DecodeBid(WireHex(EncodeBid(amount))) == Ok(amount)
  {
    var b, v := EncodeBid(amount), amount % TWO_64;
    assert ParseChunks(StripPrefix(WireHex(b))) == b by {
      ParseChunksToHex(b);
    }
    assert BeValue(b[24..32]) == v by {
      assert b[24..32] == BeBytes(v, 8);
      Pow256Eight();
      BeValueOfBeBytes(v, 8);
    }
    DecodeBidValue(WireHex(b));
  }

  /** Every bid of the list is hex text once its "0x" is dropped. */
  predicate AllHex(bids: seq<(Address, string)>) {
    forall i :: 0 <= i < |bids| ==> IsHexText(StripPrefix(bids[i].1))
  }

  /** What decodeBid gives for each bid of the list, in bidder order. */
  function Outcomes(bids: seq<(Address, string)>): (r: seq<Result<nat, JsError>>)
    requires AllHex(bids)
    ensures |r| == |bids|
    ensures forall i {:trigger DecodeBid(bids[i].1)} :: 0 <= i < |bids| ==> r[i] == DecodeBid(bids[i].1)
  {
    if bids == [] then []
    else
      var tail := bids[1..];
      assert forall i :: 0 <= i < |tail| ==> tail[i] == bids[i + 1];
      [DecodeBid(bids[0].1)] + Outcomes(tail)
  }

  /** Running the first n steps of a loop whose step may throw: the values of
      all n steps, or the exception of the first step that throws, which
      aborts the rest. */
  function Collect(outcomes: seq<Result<nat, JsError>>, n: nat): (r: Result<seq<nat>, JsError>)
    requires n <= |outcomes|
    ensures r.Ok? ==> |r.value| == n
  {
    if n == 0 then Ok([])
    else
      match Collect(outcomes, n - 1)
      case Err(e) => Err(e)
      case Ok(vs) =>
        match outcomes[n - 1]
        case Err(e) => Err(e)
        case Ok(v) => Ok(vs + [v])
  }

  /** Decoding the whole bidder list, where the first bid that throws aborts
      the pass with its exception (DecodeAllSpec says what it yields). */
  function DecodeAll(bids: seq<(Address, string)>): (r: Result<seq<nat>, JsError>)
    requires AllHex(bids)
    ensures r.Ok? ==> |r.value| == |bids|
  {
    Collect(Outcomes(bids), |bids|)
  }

  /** The first n steps succeed exactly when none of them throws, and then
      give their values in order. */
  lemma {:induction false} CollectOk(outcomes: seq<Result<nat, JsError>>, n: nat)
    requires n <= |outcomes|
    ensures Collect(outcomes, n).Ok? <==> forall i :: 0 <= i < n ==> outcomes[i].Ok?
    ensures Collect(outcomes, n).Ok? ==>
      forall i :: 0 <= i < n ==> outcomes[i] == Ok(Collect(outcomes, n).value[i])
  {
    if n > 0 {
      CollectOk(outcomes, n - 1);
      var prev := Collect(outcomes, n - 1);
      if prev.Ok? && outcomes[n - 1].Ok? {
        var vs := prev.value + [outcomes[n - 1].value];
        assert forall i :: 0 <= i < n - 1 ==> vs[i] == prev.value[i];
      }
    }
  }

  /** Step i is the first of the loop to throw, and it throws e. */
  predicate FirstFailure(outcomes: seq<Result<nat, JsError>>, i: nat, e: JsError) {
    i < |outcomes| && (forall j :: 0 <= j < i ==> outcomes[j].Ok?) && outcomes[i] == Err(e)
  }

  /** When they fail, they fail with the exception of the first step that throws. */
  lemma {:induction false} CollectErr(outcomes: seq<Result<nat, JsError>>, n: nat)
    requires n <= |outcomes| && Collect(outcomes, n).Err?
    ensures exists i: nat :: i < n && FirstFailure(outcomes, i, Collect(outcomes, n).error)
  {
    var prev := Collect(outcomes, n - 1);
    if prev.Err? {
      CollectErr(outcomes, n - 1);
      var i: nat :| i < n - 1 && FirstFailure(outcomes, i, prev.error);
      assert Collect(outcomes, n) == prev;
      assert FirstFailure(outcomes, i, Collect(outcomes, n).error);
    } else {
      CollectOk(outcomes, n - 1);
      assert FirstFailure(outcomes, n - 1, Collect(outcomes, n).error);
    }
  }

  /** One more step that does not throw appends its value. */
  lemma CollectSnoc(outcomes: seq<Result<nat, JsError>>, n: nat, vs: seq<nat>, v: nat)
    requires n < |outcomes| && Collect(outcomes, n) == Ok(vs) && outcomes[n] == Ok(v)
    ensures Collect(outcomes, n + 1) == Ok(vs + [v])
  {
  }

  /** Once a step has thrown, later steps do not change the outcome. */
  lemma {:induction false} CollectErrorStays(outcomes: seq<Result<nat, JsError>>, m: nat, n: nat)
    requires m <= n <= |outcomes| && Collect(outcomes, m).Err?
    ensures Collect(outcomes, n) == Collect(outcomes, m)
    decreases n
  {
    if n > m {
      CollectErrorStays(outcomes, m, n - 1);
    }
  }

  /** A pass over the bidder list succeeds exactly when every bid decodes,
      and then yields the amounts in bidder order; otherwise it fails with the
      exception of the first bid that does not decode. */
  lemma DecodeAllSpec(bids: seq<(Address, string)>)
    requires AllHex(bids)
    ensures DecodeAll(bids).Ok? <==> forall i :: 0 <= i < |bids| ==> DecodeBid(bids[i].1).Ok?
    ensures DecodeAll(bids).Ok? ==>
      forall i :: 0 <= i < |bids| ==> DecodeBid(bids[i].1) == Ok(DecodeAll(bids).value[i])
    ensures DecodeAll(bids).Err? ==>
      exists i :: 0 <= i < |bids| && (forall j :: 0 <= j < i ==> DecodeBid(bids[j].1).Ok?) &&
                  DecodeBid(bids[i].1) == Err(DecodeAll(bids).error)
  {
    var outcomes := Outcomes(bids);
    assert forall i :: 0 <= i < |bids| ==> outcomes[i] == DecodeBid(bids[i].1);
    CollectOk(outcomes, |bids|);
    if DecodeAll(bids).Err? {
      CollectErr(outcomes, |bids|);
    }
  }

  /** Bids that went through encodeBid and came back from the contract as hex
      decode, as a whole list, to exactly the amounts that were submitted. */
  lemma DecodeAllEncoded(bids: seq<(Address, string)>, amounts: seq<nat>)
    requires |bids| == |amounts|
    requires forall i :: 0 <= i < |bids| ==>
      amounts[i] < TWO_64 && bids[i].1 == WireHex(EncodeBid(amounts[i]))
    ensures AllHex(bids) && DecodeAll(bids) == Ok(amounts)
  {
    forall i | 0 <= i < |bids|
      ensures IsHexText(StripPrefix(bids[i].1)) && DecodeBid(bids[i].1) == Ok(amounts[i])
    {
      RoundTrip(amounts[i]);
    }
    DecodeAllSpec(bids);
    var vs := DecodeAll(bids).value;
    assert forall i :: 0 <= i < |bids| ==> vs[i] == amounts[i];
    assert vs == amounts;
  }

  /** A row of the bidder table: the bidder and the amount decoded for it. */
  datatype Row = Row(address: Address, decodedBid: nat)

  datatype Winner = Winner(address: Address, bid: nat)

  /** What fetchAndDecode hands to the page: the table and the winner, if any. */
  datatype View = View(rows: seq<Row>, winner: Option<Winner>)

  /** Appending the row of bidder i keeps the table in step with the amounts. */
  lemma RowsSnoc(bids: seq<(Address, string)>, i: nat, rows: seq<Row>, amounts: seq<nat>, amount: nat)
    requires i < |bids| && |rows| == i && |amounts| == i
    requires forall j :: 0 <= j < i ==> rows[j] == Row(bids[j].0, amounts[j])
    ensures forall j :: 0 <= j < i + 1 ==>
      (rows + [Row(bids[i].0, amount)])[j] == Row(bids[j].0, (amounts + [amount])[j])
  {
  }

  /** fetchAndDecode, from the bidder list on: decode every bid in order into
      a row, keep the best so far and replace it only on a strictly larger
      amount. The first bid that fails to decode aborts the whole fetch. */
  method FetchAndDecode(bids: seq<(Address, string)>) returns (r: Result<View, JsError>)
    requires AllHex(bids)
    ensures r.Err? <==> DecodeAll(bids).Err?
    ensures r.Err? ==> r.error == DecodeAll(bids).error
    ensures r.Ok? ==>
      |r.value.rows| == |bids| &&
      forall i :: 0 <= i < |bids| ==> r.value.rows[i] == Row(bids[i].0, DecodeAll(bids).value[i])
    ensures r.Ok? ==> (r.value.winner == None <==> bids == [])
    ensures r.Ok? && bids != [] ==>
      r.value.winner == Some(Winner(bids[Tally.WinnerIndex(DecodeAll(bids).value)].0, Tally.Highest(DecodeAll(bids).value)))
  {
    var rows: seq<Row> := [];
    var bestBid: int := -1;
    var bestAddr := "";
    ghost var amounts: seq<nat> := [];
    ghost var outcomes := Outcomes(bids);
    for i := 0 to |bids|
      invariant Collect(outcomes, i) == Ok(amounts)
      invariant |rows| == i
      invariant forall j :: 0 <= j < i ==> rows[j] == Row(bids[j].0, amounts[j])
      invariant bestBid == Tally.Highest(amounts)
      invariant i > 0 ==> bestAddr == bids[Tally.WinnerIndex(amounts)].0
    {
      var addr, enc := bids[i].0, bids[i].1;
      var decoded := DecodeBid(enc);
      if decoded.Err? {
        CollectErrorStays(outcomes, i + 1, |bids|);
        return Err(decoded.error);
      }
      var amount := decoded.value;
      CollectSnoc(outcomes, i, amounts, amount);
      RowsSnoc(bids, i, rows, amounts, amount);
      rows := rows + [Row(addr, amount)];
      assert Tally.Highest(amounts + [amount]) == if amount > bestBid then amount else bestBid by {
        Tally.HighestSnoc(amounts, amount);
      }
      assert Tally.WinnerIndex(amounts + [amount]) == if amount > bestBid then i else Tally.WinnerIndex(amounts) by {
        Tally.WinnerIndexSnoc(amounts, amount);
      }
      if amount > bestBid {
        bestBid := amount;
        bestAddr := addr;
      }
      amounts := amounts + [amount];
    }
    var winner := if bestBid >= 0 then Some(Winner(bestAddr, bestBid)) else None;
    r := Ok(View(rows, winner));
  }
}
