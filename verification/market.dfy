/** Stateless validation of the market operations. */
module Market {
  import opened Results
  import opened ProtocolTypes

  /** `limit_order_create_operation::validate`: an order sells a positive
      amount of one asset for a positive amount of a different asset. */
  function LimitOrderCreateValidate(fee: Asset, amountToSell: Asset, minToReceive: Asset): (r: Outcome)
    ensures r.Pass? <==> amountToSell.assetId != minToReceive.assetId && fee.amount >= 0
                         && amountToSell.amount > 0 && minToReceive.amount > 0
    ensures amountToSell.assetId == minToReceive.assetId ==> r == Fail("amount_to_sell.asset_id != min_to_receive.asset_id")
  {
    if amountToSell.assetId == minToReceive.assetId then Fail("amount_to_sell.asset_id != min_to_receive.asset_id")
    else if fee.amount < 0 then Fail("fee.amount >= 0")
    else if amountToSell.amount <= 0 then Fail("amount_to_sell.amount > 0")
    else if minToReceive.amount <= 0 then Fail("min_to_receive.amount > 0")
    else Pass
  }

  /** `limit_order_cancel_operation::validate`. */
  function LimitOrderCancelValidate(fee: Asset): (r: Outcome)
    ensures r.Pass? <==> fee.amount >= 0
  {
    Assert(fee.amount >= 0, "fee.amount >= 0")
  }

  /** `call_order_update_operation::validate`: collateral and debt are
      different assets and at least one of them changes. */
  function CallOrderUpdateValidate(fee: Asset, deltaCollateral: Asset, deltaDebt: Asset): (r: Outcome)
    ensures r.Pass? <==> fee.amount >= 0 && deltaCollateral.assetId != deltaDebt.assetId
                         && (deltaCollateral.amount != 0 || deltaDebt.amount != 0)
  {
    if fee.amount < 0 then Fail("fee.amount >= 0")
    else if deltaCollateral.assetId == deltaDebt.assetId then Fail("delta_collateral.asset_id != delta_debt.asset_id")
    else if deltaCollateral.amount == 0 && deltaDebt.amount == 0
    then Fail("delta_collateral.amount != 0 || delta_debt.amount != 0")
    else Pass
  }
}
