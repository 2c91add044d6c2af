/** Values shared by the protocol operations: amounts of an asset, prices,
    optional fields, and the chain constants their validators compare with. */
module ProtocolTypes {

  /** GRAPHENE_MAX_SHARE_SUPPLY. */
  const MaxShareSupply: int := 1_000_000_000_000_000
  /** GRAPHENE_100_PERCENT: percentages are in hundredths of a percent. */
  const HundredPercent: nat := 10000
  /** GRAPHENE_MAX_URL_LENGTH. */
  const MaxUrlLength: nat := 127

  /** The signed 64-bit range of `share_type`. */
  const MinShare: int := -0x8000_0000_0000_0000
  const MaxShare: int := 0x7FFF_FFFF_FFFF_FFFF

  type u16 = x: int | 0 <= x < 0x1_0000

  /** An `asset`: an amount of the asset with the given instance number
      (instance 0 is the core asset). */
  datatype Asset = Asset(amount: int, assetId: nat)

  /** A `price`, of which only the asset ids are consulted here. */
  datatype Price = Price(base: Asset, quote: Asset)

  /** An `optional<T>` field. */
  datatype Option<T> = None | Some(value: T)
}
