/**
 * The ordered list of feature items shared by the scroll showcase and the
 * mobile carousel. Sequence position, not `rank`, is the navigation order;
 * `rank` is a display label that counts down from the first item.
 */
module Features {

  /** One showcased feature; `image` names the photo asset it shows. */
  datatype FeatureItem = FeatureItem(rank: nat, title: string, description: string, image: string)

  const Items: seq<FeatureItem> := [
    FeatureItem(6, "Rihla Comfort+ Tier",
      "Luxury on the go. Ride in premium cars with extra legroom, curated playlists, and complimentary bottled water — driven by top-rated, hospitality-trained professionals.",
      "rank6"),
    FeatureItem(5, "Rihla for Her",
      "Your comfort, your choice. Female passengers can opt for female drivers, backed by extra safety checks, live trip support, and quick 24/7 availability.",
      "rank5"),
    FeatureItem(4, "The \"Triple-Check\" Shield",
      "Every driver is vetted with deep background checks, live monitoring, and vehicle inspections before each ride — so every journey starts with trust.",
      "rank4"),
    FeatureItem(3, "Rihla Guardian™",
      "Share live ride tracking with friends or family — no app needed. Get alerts for unexpected stops and instant emergency contacts at the ready.",
      "rank3"),
    FeatureItem(2, "Live Language Translation",
      "Chat freely with your driver — our in-app messenger instantly translates 50+ languages with industry-leading accuracy.",
      "rank2"),
    FeatureItem(1, "The Digital Handshake™",
      "Scan your driver’s plate before boarding to confirm identity, car, and booking. Security that’s simple, fast, and mistake-proof.",
      "rank1")
  ]

  /** The carousel's item count, `features.length`; `RanksCountDown`
      proves it is the length of `Items`. */
  const Count: nat := 6

  /** There are six items, and the rank label of the item at position `i`
      is `Count - i`: a countdown from #6 to #1. Hence every rank lies in
      `1..Count` and no two items share a rank. */
  lemma RanksCountDown()
    ensures |Items| == Count
    ensures forall i :: 0 <= i < Count ==> Items[i].rank == Count - i
    ensures forall i :: 0 <= i < Count ==> 1 <= Items[i].rank <= Count
  {
  }

  /** The rendered card is keyed by `rank`; distinct positions give distinct
      keys, so a change of index always swaps the keyed card. */
  lemma RanksAreDistinctKeys(i: int, j: int)
    requires 0 <= i < Count && 0 <= j < Count
    ensures Items[i].rank == Items[j].rank <==> i == j
  {
    RanksCountDown();
  }
}
