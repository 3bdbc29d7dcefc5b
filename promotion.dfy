/** Promotions and their inclusive time window. Instants are ticks on one clock; the current
    time is a parameter. */
module Promotions {
  import opened Common

  datatype PromotionType = PizzeriaWide | SinglePizza

  datatype Promotion = Promotion(
    name: string,
    description: Option<string>,
    discountValue: real,
    kind: PromotionType,
    startDate: int,
    endDate: int,
    pizzeriaId: Guid)

  /** `IsActive`: the promotion has started and has not yet ended, both bounds included. */
  predicate IsActive(p: Promotion, now: int) {
    now >= p.startDate && now <= p.endDate
  }

  /** The active instants are exactly the closed interval from the start to the end. */
  lemma ActiveWindow(p: Promotion, now: int)
    ensures IsActive(p, now) <==> p.startDate <= now <= p.endDate
    ensures IsActive(p, now) ==> p.startDate <= p.endDate
  {
  }

  /** Both ends of a well-formed window are active instants. */
  lemma BoundsAreActive(p: Promotion)
    requires p.startDate <= p.endDate
    ensures IsActive(p, p.startDate) && IsActive(p, p.endDate)
  {
  }

  /** Before the start and after the end the promotion is inactive. */
  lemma OutsideIsInactive(p: Promotion, now: int)
    requires now < p.startDate || p.endDate < now
    ensures !IsActive(p, now)
  {
  }

  /** A promotion that ends before it starts is never active. */
  lemma InvertedWindowNeverActive(p: Promotion)
    requires p.endDate < p.startDate
    ensures forall now :: !IsActive(p, now)
  {
  }

  /** Activity is convex in time: active at two instants means active at every instant between them. */
  lemma ActiveBetween(p: Promotion, t1: int, t: int, t2: int)
    requires IsActive(p, t1) && IsActive(p, t2) && t1 <= t <= t2
    ensures IsActive(p, t)
  {
  }
}
