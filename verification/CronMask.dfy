/** A field of a cron schedule as the source keeps it: a 64-bit word, here the set of its one bits. */
module CronMask {
  type Mask = s: set<nat> | forall b :: b in s ==> b < 64 witness {}

  /** Set in a field that was written with a star. */
  const STAR_BIT := 63
}
