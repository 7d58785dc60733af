/** Printer profiles: how tall a stripe (one printed column of 18 mm tape) is
    on each supported printer model. */
module Profile {
  import opened Wrappers

  /** Dots per stripe, by printer model name. */
  const StripeSizes: map<string, nat> := map["P950NW" := 408, "9800PCN" := 312]

  /** Unknown and undetected printers are treated as the P950NW. */
  const DefaultStripeSize: nat := StripeSizes["P950NW"]

  /** The stripe size `render` picks for a printer model, or for no model at
      all: the 9800PCN has 312 dots per stripe, everything else 408. The size is
      always a whole number of bytes. */
  function StripeSize(model: Option<string>): (n: nat)
    ensures n % 8 == 0
    ensures model == Some("9800PCN") ==> n == 312
    ensures model != Some("9800PCN") ==> n == 408
  {
    match model
    case Some(name) => if name in StripeSizes then StripeSizes[name] else DefaultStripeSize
    case None => DefaultStripeSize
  }

  /** Bytes per stripe: 39 on the 9800PCN and 51 otherwise, so one stripe
      always fits a single PackBits literal or run. */
  function StripeCount(model: Option<string>): (c: nat)
    ensures c * 8 == StripeSize(model)
    ensures c == 39 || c == 51
    ensures 1 <= c <= 128
  {
    StripeSize(model) / 8
  }
}
