/**
 * Points in time, as whole seconds. Both retrievers only subtract fixed
 * spans from a timestamp; the calendar formats they print and parse are
 * not modelled.
 */
module Timestamps {

  type Time = int

  const Day: int := 24 * 60 * 60
  const Week: int := 7 * Day
}
