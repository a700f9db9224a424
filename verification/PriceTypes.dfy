/** Values a price account is made of. */
module PriceTypes {
  import opened Keys

  const STATUS_UNKNOWN: int := 0
  const STATUS_TRADING: int := 1
  const STATUS_IGNORED: int := 4

  /** Component slots in the account; only the first NUM_COMP are ever used. */
  const NUM_COMP_TOTAL: nat := 128
  const NUM_COMP: nat := 64
  const MAX_SEND_LATENCY: int := 25
  const MAX_CI_DIVISOR: int := 3
  const MAX_NUM_DECIMALS: int := 12
  const DEFAULT_MIN_PUB: int := 20

  datatype PriceInfo = PriceInfo(price: int, conf: int, status: int, pubSlot: int)

  datatype PriceComponent = PriceComponent(pub: Key, agg: PriceInfo, latest: PriceInfo)

  const ZERO_INFO: PriceInfo := PriceInfo(0, 0, STATUS_UNKNOWN, 0)
  const ZERO_COMP: PriceComponent := PriceComponent(ZERO_KEY, ZERO_INFO, ZERO_INFO)
}
