/** Stateless validation of the asset operations (`validate()` of each
    operation and of the option structures it carries), the symbol grammar
    and the creation fee. A failing `FC_ASSERT` is a `Fail` naming the check. */
module AssetOps {
  import opened Results
  import opened ProtocolTypes

  // Chain configuration constants.
  const MinAssetSymbolLength: nat := 3
  const MaxAssetSymbolLength: nat := 16
  const MaxPrecision: nat := 12

  // `asset_issuer_permission_flags`, held in 16-bit `flags` / `issuer_permissions`.
  const ChargeMarketFee: bv16 := 0x01
  const WhiteList: bv16 := 0x02
  const OverrideAuthority: bv16 := 0x04
  const TransferRestricted: bv16 := 0x08
  const DisableForceSettle: bv16 := 0x10
  const GlobalSettle: bv16 := 0x20
  const DisableConfidential: bv16 := 0x40
  const WitnessFedAsset: bv16 := 0x80
  const CommitteeFedAsset: bv16 := 0x100
  const AssetIssuerPermissionMask: bv16 :=
    ChargeMarketFee | WhiteList | OverrideAuthority | TransferRestricted | DisableForceSettle
    | GlobalSettle | DisableConfidential | WitnessFedAsset | CommitteeFedAsset


  // ---------------------------------------------------------------------
  // is_valid_symbol

  predicate IsUpper(c: char) { 'A' <= c <= 'Z' }
  predicate IsLower(c: char) { 'a' <= c <= 'z' }
  predicate IsAlpha(c: char) { IsUpper(c) || IsLower(c) }
  predicate IsDigit(c: char) { '0' <= c <= '9' }

  /** The symbol grammar: 3 to 16 characters from [A-Z0-9.], beginning and
      ending with a capital letter, with at most one '.', and not beginning
      with "BIT". */
  predicate ValidSymbol(s: string)
  {
    && MinAssetSymbolLength <= |s| <= MaxAssetSymbolLength
    && s[..3] != "BIT"
    && IsUpper(s[0]) && IsUpper(s[|s| - 1])
    && (forall i :: 0 <= i < |s| ==> IsUpper(s[i]) || IsDigit(s[i]) || s[i] == '.')
    && (forall i, j :: 0 <= i < j < |s| && s[i] == '.' ==> s[j] != '.')
  }

  /** `is_valid_symbol`: length and prefix checks, letters at both ends, then
      one pass over the characters tracking whether a '.' was already seen. */
  method IsValidSymbol(symbol: string) returns (ok: bool)
    ensures ok <==> ValidSymbol(symbol)
  {
    if |symbol| < MinAssetSymbolLength {
      return false;
    }
    if symbol[..3] == "BIT" {
      return false;
    }
    if |symbol| > MaxAssetSymbolLength {
      return false;
    }
    if !IsAlpha(symbol[0]) {
      return false;
    }
    if !IsAlpha(symbol[|symbol| - 1]) {
      return false;
    }
    var dotAlreadyPresent := false;
    var k := 0;
    while k < |symbol|
      invariant 0 <= k <= |symbol|
      invariant forall i :: 0 <= i < k ==> IsUpper(symbol[i]) || IsDigit(symbol[i]) || symbol[i] == '.'
      invariant dotAlreadyPresent <==> exists i :: 0 <= i < k && symbol[i] == '.'
      invariant forall i, j :: 0 <= i < j < k && symbol[i] == '.' ==> symbol[j] != '.'
    {
      var c := symbol[k];
      if (IsAlpha(c) && IsUpper(c)) || IsDigit(c) {
        k := k + 1;
        continue;
      }
      if c == '.' {
        if dotAlreadyPresent {
          return false;
        }
        dotAlreadyPresent := true;
        k := k + 1;
        continue;
      }
      return false;
    }
    return true;
  }

  /** Consequences of the grammar: an accepted symbol starts and ends with a
      capital letter, and no symbol starting with "BIT" is accepted. */
  lemma ValidSymbolShape(s: string)
    ensures ValidSymbol(s) ==> IsUpper(s[0]) && IsUpper(s[|s| - 1]) && !IsDigit(s[0])
    ensures |s| >= 3 && s[..3] == "BIT" ==> !ValidSymbol(s)
  {
  }

  /** Every character of an accepted symbol is ASCII, so its length is also
      the byte count `symbol.size()` of the `std::string`. */
  lemma ValidSymbolAscii(s: string)
    requires ValidSymbol(s)
    ensures forall i :: 0 <= i < |s| ==> s[i] < 128 as char
  {
  }

  // ---------------------------------------------------------------------
  // Fees

  const Two64: int := 0x1_0000_0000_0000_0000

  /** The `uint64_t` fields of the fee parameters. */
  type u64 = x: int | 0 <= x < Two64

  datatype AssetCreateFeeParameters = AssetCreateFeeParameters(
    symbol3: u64, symbol4: u64, longSymbol: u64, pricePerKbyte: u64)

  /** `r` is what a 64-bit two's complement register holds after computing
      `sum`: the one value of the signed range congruent to it. */
  predicate WrapsTo(r: int, sum: int)
  {
    MinShare <= r <= MaxShare && (r - sum) % Two64 == 0
  }

  /** There is only one such value, so a contract stated with `WrapsTo`
      determines its result. */
  lemma WrapsToUnique(r1: int, r2: int, sum: int)
    requires WrapsTo(r1, sum) && WrapsTo(r2, sum)
    ensures r1 == r2
  {
    var q1 := (r1 - sum) / Two64;
    var q2 := (r2 - sum) / Two64;
    assert r1 - sum == Two64 * q1;
    assert r2 - sum == Two64 * q2;
    assert r1 - r2 == Two64 * (q1 - q2);
  }

  /** `core_fee_required += ...` on the `uint64_t` accumulator (its type is
      that of the fee-parameter field `auto` copies): wraps modulo 2^64 and
      never throws. */
  function AddFee(a: u64, b: u64): (r: u64)
    ensures (r - (a + b)) % Two64 == 0
    ensures a + b < Two64 ==> r == a + b
    ensures r < a <==> a + b >= Two64
  {
    (a + b) % Two64
  }

  /** `return core_fee_required;` converts the unsigned accumulator to the
      signed `share_type`, reading its 64 bits as two's complement. */
  function ToShare(x: u64): (r: int)
    ensures WrapsTo(r, x)
    ensures x <= MaxShare ==> r == x
    ensures x > MaxShare ==> r < 0
  {
    if x <= MaxShare then x else x - Two64
  }

  /** The two steps together: the returned fee is the 64-bit signed reading
      of the exact sum, and equals it whenever the sum fits. */
  lemma FeeSumWraps(a: u64, b: u64)
    ensures WrapsTo(ToShare(AddFee(a, b)), a + b)
    ensures ToShare(AddFee(a, b)) == a + b <==> a + b <= MaxShare
  {
    var x := AddFee(a, b);
    if a + b >= Two64 {
      assert x == a + b - Two64;
    }
  }

  /** `asset_create_operation::calculate_fee`: the base fee chosen by symbol
      length, plus the fee for the serialised size (`dataFee`, the value of
      `calculate_data_fee` on the packed size). */
  function AssetCreateFee(p: AssetCreateFeeParameters, symbol: string, dataFee: u64): (r: int)
    ensures |symbol| == 3 ==> WrapsTo(r, p.symbol3 + dataFee)
    ensures |symbol| == 4 ==> WrapsTo(r, p.symbol4 + dataFee)
    ensures |symbol| != 3 && |symbol| != 4 ==> WrapsTo(r, p.longSymbol + dataFee)
  {
    var coreFeeRequired: u64 :=
      match |symbol|
      case 3 => p.symbol3
      case 4 => p.symbol4
      case _ => p.longSymbol;
    FeeSumWraps(coreFeeRequired, dataFee);
    ToShare(AddFee(coreFeeRequired, dataFee))
  }

  /** `lottery_asset_create_operation::calculate_fee`: a flat lottery fee
      plus the size fee. */
  function LotteryAssetCreateFee(lotteryAsset: u64, dataFee: u64): (r: int)
    ensures WrapsTo(r, lotteryAsset + dataFee)
    ensures r == lotteryAsset + dataFee <==> lotteryAsset + dataFee <= MaxShare
  {
    FeeSumWraps(lotteryAsset, dataFee);
    ToShare(AddFee(lotteryAsset, dataFee))
  }

  // ---------------------------------------------------------------------
  // Option structures

  datatype BitassetOptions = BitassetOptions(
    minimumFeeds: nat, forceSettlementOffsetPercent: u16, maximumForceSettlementVolume: u16)

  /** `bitasset_options::validate`. */
  function BitassetOptionsValidate(o: BitassetOptions): (r: Outcome)
    ensures r.Pass? <==> o.minimumFeeds > 0 && o.forceSettlementOffsetPercent <= HundredPercent
                         && o.maximumForceSettlementVolume <= HundredPercent
  {
    Assert(o.minimumFeeds > 0, "minimum_feeds > 0")
      .Then(Assert(o.forceSettlementOffsetPercent <= HundredPercent, "force_settlement_offset_percent"))
      .Then(Assert(o.maximumForceSettlementVolume <= HundredPercent, "maximum_force_settlement_volume"))
  }

  datatype AssetOptions = AssetOptions(
    maxSupply: int, marketFeePercent: u16, maxMarketFee: int,
    issuerPermissions: bv16, flags: bv16, coreExchangeRate: Price,
    whitelistAuthorities: set<nat>, blacklistAuthorities: set<nat>,
    whitelistMarkets: set<nat>, blacklistMarkets: set<nat>)

  /** `asset_options::validate`, apart from `core_exchange_rate.validate()`. */
  function AssetOptionsValidate(o: AssetOptions): (r: Outcome)
    ensures o.maxSupply <= 0 || o.maxSupply > MaxShareSupply ==> r.Fail?
    ensures o.marketFeePercent > HundredPercent ==> r.Fail?
    ensures o.maxMarketFee < 0 || o.maxMarketFee > MaxShareSupply ==> r.Fail?
    ensures o.issuerPermissions & !AssetIssuerPermissionMask != 0 ==> r.Fail?
    ensures o.flags & GlobalSettle != 0 ==> r.Fail?
    ensures o.flags & WitnessFedAsset != 0 && o.flags & CommitteeFedAsset != 0 ==> r.Fail?
    ensures o.coreExchangeRate.base.assetId != 0 && o.coreExchangeRate.quote.assetId != 0 ==> r.Fail?
    ensures (o.whitelistAuthorities != {} || o.blacklistAuthorities != {}) && o.flags & WhiteList == 0 ==> r.Fail?
    ensures r.Pass? ==> o.whitelistMarkets !! o.blacklistMarkets
  {
    if o.maxSupply <= 0 then Fail("max_supply > 0")
    else if o.maxSupply > MaxShareSupply then Fail("max_supply <= GRAPHENE_MAX_SHARE_SUPPLY")
    else if o.marketFeePercent > HundredPercent then Fail("market_fee_percent <= GRAPHENE_100_PERCENT")
    else if o.maxMarketFee < 0 || o.maxMarketFee > MaxShareSupply then Fail("max_market_fee")
    else if o.issuerPermissions & !AssetIssuerPermissionMask != 0 then Fail("unknown permission bits")
    else if o.flags & GlobalSettle != 0 then Fail("global_settle flag")
    else if o.flags & (WitnessFedAsset | CommitteeFedAsset) == (WitnessFedAsset | CommitteeFedAsset)
    then Fail("witness_fed and committee_fed")
    else if o.coreExchangeRate.base.assetId != 0 && o.coreExchangeRate.quote.assetId != 0
    then Fail("core_exchange_rate must involve the core asset")
    else if (o.whitelistAuthorities != {} || o.blacklistAuthorities != {}) && o.flags & WhiteList == 0
    then Fail("white_list flag")
    else if exists item | item in o.whitelistMarkets :: item in o.blacklistMarkets
    then Fail("whitelist market also blacklisted")
    else if exists item | item in o.blacklistMarkets :: item in o.whitelistMarkets
    then Fail("blacklist market also whitelisted")
    else Pass
  }

  /** Every check listed passing is enough for the options to pass. */
  lemma AssetOptionsAccepted(o: AssetOptions)
    requires 0 < o.maxSupply <= MaxShareSupply && o.marketFeePercent <= HundredPercent
    requires 0 <= o.maxMarketFee <= MaxShareSupply
    requires o.issuerPermissions & !AssetIssuerPermissionMask == 0
    requires o.flags & GlobalSettle == 0
    requires o.flags & WitnessFedAsset == 0 || o.flags & CommitteeFedAsset == 0
    requires o.coreExchangeRate.base.assetId == 0 || o.coreExchangeRate.quote.assetId == 0
    requires o.whitelistAuthorities != {} || o.blacklistAuthorities != {} ==> o.flags & WhiteList != 0
    requires o.whitelistMarkets !! o.blacklistMarkets
    ensures AssetOptionsValidate(o).Pass?
  {
    assert o.flags & (WitnessFedAsset | CommitteeFedAsset) != (WitnessFedAsset | CommitteeFedAsset);
  }

  // ---------------------------------------------------------------------
  // Operations

  datatype AssetCreateOperation = AssetCreateOperation(
    fee: Asset, symbol: string, precision: nat, commonOptions: AssetOptions,
    bitassetOpts: Option<BitassetOptions>, isPredictionMarket: bool)

  /** The checks of `asset_create_operation::validate`, in source order, apart
      from the one requiring that one unit of the core asset times the core
      exchange rate yields `asset_id_type(1)`, the placeholder id of the asset
      being created. */
  predicate CreateChecks(op: AssetCreateOperation)
  {
    var o := op.commonOptions;
    && op.fee.amount >= 0
    && ValidSymbol(op.symbol)
    && AssetOptionsValidate(o).Pass?
    && (o.issuerPermissions & (DisableForceSettle | GlobalSettle) != 0 ==> op.bitassetOpts.Some?)
    && (op.isPredictionMarket ==> op.bitassetOpts.Some? && o.issuerPermissions & GlobalSettle != 0)
    && (op.bitassetOpts.Some? ==> BitassetOptionsValidate(op.bitassetOpts.value).Pass?)
    && op.precision <= MaxPrecision
  }

  /** `asset_create_operation::validate`: passes exactly when every check
      holds, and reports the first one that fails. */
  function AssetCreateValidate(op: AssetCreateOperation): (r: Outcome)
    ensures op.fee.amount < 0 ==> r == Fail("fee.amount >= 0")
    ensures op.fee.amount >= 0 && !ValidSymbol(op.symbol) ==> r == Fail("is_valid_symbol( symbol )")
    ensures r.Pass? <==> CreateChecks(op)
  {
    var o := op.commonOptions;
    if op.fee.amount < 0 then Fail("fee.amount >= 0")
    else if !ValidSymbol(op.symbol) then Fail("is_valid_symbol( symbol )")
    else if AssetOptionsValidate(o).Fail? then AssetOptionsValidate(o)
    else if o.issuerPermissions & (DisableForceSettle | GlobalSettle) != 0 && op.bitassetOpts.None?
    then Fail("bitasset_opts.valid()")
    else if op.isPredictionMarket && op.bitassetOpts.None?
    then Fail("Cannot have a User-Issued Asset implement a prediction market.")
    else if op.isPredictionMarket && o.issuerPermissions & GlobalSettle == 0
    then Fail("global_settle permission")
    else if op.bitassetOpts.Some? && BitassetOptionsValidate(op.bitassetOpts.value).Fail?
    then BitassetOptionsValidate(op.bitassetOpts.value)
    else if op.precision > MaxPrecision then Fail("precision <= 12")
    else Pass
  }

  /** A prediction market can only be created as a market-issued asset that
      keeps the global-settle permission. */
  lemma PredictionMarketNeedsGlobalSettle(op: AssetCreateOperation)
    requires op.isPredictionMarket
    requires op.bitassetOpts.None? || op.commonOptions.issuerPermissions & GlobalSettle == 0
    ensures AssetCreateValidate(op).Fail?
  {
  }

  /** `lottery_asset_create_operation`: the fields of an asset creation plus
      the lottery options it carries in its extensions. */
  datatype LotteryAssetCreateOperation = LotteryAssetCreateOperation(
    create: AssetCreateOperation, lotteryOptions: LotteryAssetOptions)

  /** `lottery_asset_create_operation::validate` repeats the checks of plain
      asset creation word for word; the lottery options are not examined. */
  function LotteryAssetCreateValidate(op: LotteryAssetCreateOperation): (r: Outcome)
    ensures op.create.fee.amount < 0 ==> r == Fail("fee.amount >= 0")
    ensures op.create.fee.amount >= 0 && !ValidSymbol(op.create.symbol) ==>
              r == Fail("is_valid_symbol( symbol )")
    ensures r.Pass? <==> CreateChecks(op.create)
  {
    AssetCreateValidate(op.create)
  }

  datatype AssetUpdateOperation = AssetUpdateOperation(
    fee: Asset, issuer: nat, assetToUpdate: nat, newIssuer: Option<nat>, newOptions: AssetOptions)

  /** `asset_update_operation::validate`, apart from the check that one unit
      of the asset being updated times the new core exchange rate yields the
      core asset. */
  function AssetUpdateValidate(op: AssetUpdateOperation): (r: Outcome)
    ensures r.Pass? <==> op.fee.amount >= 0 && (op.newIssuer.Some? ==> op.newIssuer.value != op.issuer)
                         && AssetOptionsValidate(op.newOptions).Pass?
    ensures op.fee.amount < 0 ==> r == Fail("fee.amount >= 0")
    ensures op.fee.amount >= 0 && op.newIssuer.Some? && op.newIssuer.value == op.issuer ==>
              r == Fail("issuer != *new_issuer")
    ensures op.fee.amount >= 0 && (op.newIssuer.Some? ==> op.newIssuer.value != op.issuer) ==>
              r == AssetOptionsValidate(op.newOptions)
  {
    Assert(op.fee.amount >= 0, "fee.amount >= 0")
      .Then(if op.newIssuer.Some? then Assert(op.issuer != op.newIssuer.value, "issuer != *new_issuer") else Pass)
      .Then(AssetOptionsValidate(op.newOptions))
  }

  /** `asset_reserve_operation::validate`. */
  function AssetReserveValidate(fee: Asset, amountToReserve: Asset): (r: Outcome)
    ensures r.Pass? <==> fee.amount >= 0 && 0 < amountToReserve.amount <= MaxShareSupply
  {
    Assert(fee.amount >= 0, "fee.amount >= 0")
      .Then(Assert(amountToReserve.amount <= MaxShareSupply, "amount <= GRAPHENE_MAX_SHARE_SUPPLY"))
      .Then(Assert(amountToReserve.amount > 0, "amount > 0"))
  }

  /** `asset_issue_operation::validate`: the core asset (instance 0) can never
      be issued. */
  function AssetIssueValidate(fee: Asset, assetToIssue: Asset): (r: Outcome)
    ensures r.Pass? <==> fee.amount >= 0 && 0 < assetToIssue.amount <= MaxShareSupply
                         && assetToIssue.assetId != 0
  {
    Assert(fee.amount >= 0, "fee.amount >= 0")
      .Then(Assert(assetToIssue.amount <= MaxShareSupply, "amount <= GRAPHENE_MAX_SHARE_SUPPLY"))
      .Then(Assert(assetToIssue.amount > 0, "amount > 0"))
      .Then(Assert(assetToIssue.assetId != 0, "asset_id != asset_id_type(0)"))
  }

  /** `asset_fund_fee_pool_operation::validate`: the fee must be paid in the
      core asset and the amount be positive. */
  function AssetFundFeePoolValidate(fee: Asset, amount: int): (r: Outcome)
    ensures r.Pass? <==> fee.amount >= 0 && fee.assetId == 0 && amount > 0
  {
    Assert(fee.amount >= 0, "fee.amount >= 0")
      .Then(Assert(fee.assetId == 0, "fee.asset_id == asset_id_type()"))
      .Then(Assert(amount > 0, "amount > 0"))
  }

  /** `asset_settle_operation::validate`. */
  function AssetSettleValidate(fee: Asset, amount: Asset): (r: Outcome)
    ensures r.Pass? <==> fee.amount >= 0 && amount.amount >= 0
  {
    Assert(fee.amount >= 0, "fee.amount >= 0").Then(Assert(amount.amount >= 0, "amount.amount >= 0"))
  }

  /** `asset_update_bitasset_operation::validate`. */
  function AssetUpdateBitassetValidate(fee: Asset, newOptions: BitassetOptions): (r: Outcome)
    ensures r.Pass? <==> fee.amount >= 0 && BitassetOptionsValidate(newOptions).Pass?
    ensures fee.amount >= 0 ==> r == BitassetOptionsValidate(newOptions)
  {
    Assert(fee.amount >= 0, "fee.amount >= 0").Then(BitassetOptionsValidate(newOptions))
  }

  /** `asset_update_dividend_operation::validate`; `dividend_asset_options`
      accept every value, so only the fee is checked. */
  function AssetUpdateDividendValidate(fee: Asset): (r: Outcome)
    ensures r.Pass? <==> fee.amount >= 0
  {
    Assert(fee.amount >= 0, "fee.amount >= 0")
  }

  /** `asset_update_feed_producers_operation::validate`. */
  function AssetUpdateFeedProducersValidate(fee: Asset): (r: Outcome)
    ensures r.Pass? <==> fee.amount >= 0
  {
    Assert(fee.amount >= 0, "fee.amount >= 0")
  }

  /** `asset_global_settle_operation::validate`: the settlement price must be
      quoted with the settled asset as base. */
  function AssetGlobalSettleValidate(fee: Asset, assetToSettle: nat, settlePrice: Price): (r: Outcome)
    ensures r.Pass? <==> fee.amount >= 0 && assetToSettle == settlePrice.base.assetId
  {
    Assert(fee.amount >= 0, "fee.amount >= 0")
      .Then(Assert(assetToSettle == settlePrice.base.assetId, "asset_to_settle == settle_price.base.asset_id"))
  }

  /** `asset_claim_fees_operation::validate`. */
  function AssetClaimFeesValidate(fee: Asset, amountToClaim: Asset): (r: Outcome)
    ensures r.Pass? <==> fee.amount >= 0 && amountToClaim.amount > 0
  {
    Assert(fee.amount >= 0, "fee.amount >= 0").Then(Assert(amountToClaim.amount > 0, "amount_to_claim > 0"))
  }

  // ---------------------------------------------------------------------
  // lottery_asset_options

  datatype Benefactor = Benefactor(id: nat, share: u16)

  datatype LotteryAssetOptions = LotteryAssetOptions(
    benefactors: seq<Benefactor>, winningTickets: seq<u16>, ticketPrice: Asset)

  function BenefactorShares(bs: seq<Benefactor>): (total: nat)
  {
    if bs == [] then 0 else BenefactorShares(bs[..|bs| - 1]) + bs[|bs| - 1].share
  }

  function TicketShares(ts: seq<u16>): (total: nat)
  {
    if ts == [] then 0 else TicketShares(ts[..|ts| - 1]) + ts[|ts| - 1]
  }

  /** The true total of all distribution shares. */
  function ShareTotal(o: LotteryAssetOptions): nat
  {
    BenefactorShares(o.benefactors) + TicketShares(o.winningTickets)
  }

  /** The value the `uint16_t total` accumulator ends with: the true total
      modulo 2^16. */
  function WrappedShareTotal(o: LotteryAssetOptions): u16
  {
    ShareTotal(o) % 0x1_0000
  }

  /** `lottery_asset_options::validate` as written: at most 64 winning
      tickets, a ticket price of at least one, and the shares, summed in a
      16-bit accumulator, equal to 100%. */
  method LotteryAssetOptionsValidate(o: LotteryAssetOptions) returns (r: Outcome)
    ensures r.Pass? <==> |o.winningTickets| <= 64 && o.ticketPrice.amount >= 1
                         && WrappedShareTotal(o) == HundredPercent
  {
    if |o.winningTickets| > 64 {
      return Fail("winning_tickets.size() <= 64");
    }
    if o.ticketPrice.amount < 1 {
      return Fail("ticket_price.amount >= 1");
    }
    var total: u16 := 0;
    var i := 0;
    while i < |o.benefactors|
      invariant 0 <= i <= |o.benefactors|
      invariant total == BenefactorShares(o.benefactors[..i]) % 0x1_0000
    {
      assert o.benefactors[..i + 1][..i] == o.benefactors[..i];
      WrappingAdd(BenefactorShares(o.benefactors[..i]), o.benefactors[i].share);
      total := (total + o.benefactors[i].share) % 0x1_0000;
      i := i + 1;
    }
    assert o.benefactors[..i] == o.benefactors;
    ghost var benefactorTotal := BenefactorShares(o.benefactors);
    var j := 0;
    while j < |o.winningTickets|
      invariant 0 <= j <= |o.winningTickets|
      invariant total == (benefactorTotal + TicketShares(o.winningTickets[..j])) % 0x1_0000
    {
      assert o.winningTickets[..j + 1][..j] == o.winningTickets[..j];
      WrappingAdd(benefactorTotal + TicketShares(o.winningTickets[..j]), o.winningTickets[j]);
      total := (total + o.winningTickets[j]) % 0x1_0000;
      j := j + 1;
    }
    assert o.winningTickets[..j] == o.winningTickets;
    if total != HundredPercent {
      return Fail("distribution amount not equals GRAPHENE_100_PERCENT");
    }
    return Pass;
  }

  /** Adding to a 16-bit accumulator keeps it equal to the true sum modulo
      2^16. */
  lemma WrappingAdd(sum: nat, x: nat)
    ensures (sum % 0x1_0000 + x) % 0x1_0000 == (sum + x) % 0x1_0000
  {
    assert sum + x == (sum % 0x1_0000 + x) + (sum / 0x1_0000) * 0x1_0000;
  }

  /** The 16-bit accumulator lets a distribution of 755.36% through: two
      winning-ticket shares of 65535 and 10001 wrap around to exactly 10000. */
  lemma LotteryShareTotalWraps()
    ensures var o := LotteryAssetOptions([], [65535, 10001], Asset(1, 0));
      WrappedShareTotal(o) == HundredPercent && ShareTotal(o) == 75536
      && LotteryAssetOptionsIntended(o).Fail?
  {
    var o := LotteryAssetOptions([], [65535, 10001], Asset(1, 0));
    assert o.winningTickets[..1] == [65535];
    assert [65535][..0] == [];
    assert TicketShares([65535]) == 65535;
    assert TicketShares(o.winningTickets) == 75536;
    assert ShareTotal(o) == 75536;
  }

  /** `lottery_asset_options::validate` as evidently intended: the shares
      must add up to exactly 100%. */
  function LotteryAssetOptionsIntended(o: LotteryAssetOptions): (r: Outcome)
    ensures r.Pass? <==> |o.winningTickets| <= 64 && o.ticketPrice.amount >= 1 && ShareTotal(o) == HundredPercent
    ensures r.Pass? ==> forall i :: 0 <= i < |o.winningTickets| ==> o.winningTickets[i] <= HundredPercent
  {
    var r := Assert(|o.winningTickets| <= 64, "winning_tickets.size() <= 64")
      .Then(Assert(o.ticketPrice.amount >= 1, "ticket_price.amount >= 1"))
      .Then(Assert(ShareTotal(o) == HundredPercent, "distribution amount not equals GRAPHENE_100_PERCENT"));
    if r.Pass? then
      TicketSharesBound(o.winningTickets);
      r
    else r
  }

  lemma {:induction false} TicketSharesBound(ts: seq<u16>)
    ensures forall i :: 0 <= i < |ts| ==> ts[i] <= TicketShares(ts)
  {
    if ts != [] {
      var init := ts[..|ts| - 1];
      TicketSharesBound(init);
      assert forall i :: 0 <= i < |init| ==> ts[i] == init[i];
    }
  }

  /** Whenever the intended check accepts, the check as written accepts too:
      the two differ only on totals that wrap. */
  lemma IntendedImpliesWritten(o: LotteryAssetOptions)
    requires LotteryAssetOptionsIntended(o).Pass?
    ensures |o.winningTickets| <= 64 && o.ticketPrice.amount >= 1 && WrappedShareTotal(o) == HundredPercent
  {
  }
}
