/** The application events the node publishes about offers. */
module AppEvents {
  import opened Prelude

  datatype Utxo = Utxo(owner: string, intentHash: string, outputNo: int)

  datatype Leg = Leg(token: string, amount: string, kind: string)

  /** What consumed an offer's input. */
  datatype Cause = ByNullifier(nullifier: string) | BySpend(ref: Utxo)

  datatype AppEvent =
    | OfferIndexed(offerId: nat, offerHash: string, blockHeight: int, gives: seq<Leg>, wants: seq<Leg>)
    | OfferConsumed(offerId: nat, consumedHash: Option<string>, cause: Cause)
    | OfferExpired(offerId: nat, expiredHash: Option<string>)
    | TokenMinted(name: string, color: string)
    | OfferRejected(code: string, rejectedHash: Option<string>, activeHash: Option<string>, blockHeight: int)
}
