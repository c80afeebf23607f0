/** The risk meter shown under a reply that carries a score: the score is
    clamped to a percentage and sorted into one of three bands. */
module Meter {

  /** The three bands, from least to most risky, with the label and colour
      the meter draws for each. */
  datatype Band = Safe | ModerateRisk | Dangerous {
    function Label(): string {
      match this
      case Safe => "Safe"
      case ModerateRisk => "Moderate Risk"
      case Dangerous => "Dangerous"
    }

    function Color(): string {
      match this
      case Safe => "#2ecc71"
      case ModerateRisk => "#f39c12"
      case Dangerous => "#e74c3c"
    }

    /** Position in the order Safe < Moderate Risk < Dangerous. */
    function Rank(): nat {
      match this
      case Safe => 0
      case ModerateRisk => 1
      case Dangerous => 2
    }
  }

  /** What the meter displays: the bar width in percent and the band. */
  datatype Gauge = Gauge(percent: int, band: Band)

  /** `min(max(score, 0), 100)`. */
  function Clamp(score: int): (p: int)
    ensures 0 <= p <= 100
    ensures 0 <= score <= 100 ==> p == score
    ensures score < 0 ==> p == 0
    ensures score > 100 ==> p == 100
  {
    var atLeastZero := if score > 0 then score else 0;
    if atLeastZero < 100 then atLeastZero else 100
  }

  /** The band for a percentage: below 40, below 70, otherwise. */
  function BandOf(percent: int): Band {
    if percent < 40 then Safe
    else if percent < 70 then ModerateRisk
    else Dangerous
  }

  /** What `show_meter(score)` draws. The band is read off the clamped
      percentage, which puts every negative score in Safe and every score
      above 100 in Dangerous. */
  function ShowMeter(score: int): (g: Gauge)
    ensures 0 <= g.percent <= 100
    ensures 0 <= score <= 100 ==> g.percent == score
    ensures g.band == Safe <==> score < 40
    ensures g.band == ModerateRisk <==> 40 <= score < 70
    ensures g.band == Dangerous <==> 70 <= score
  {
    var p := Clamp(score);
    Gauge(p, BandOf(p))
  }

  /** A higher score never shows a lower bar or a safer band. */
  lemma ShowMeterMonotonic(a: int, b: int)
    requires a <= b
    ensures ShowMeter(a).percent <= ShowMeter(b).percent
    ensures ShowMeter(a).band.Rank() <= ShowMeter(b).band.Rank()
  {
  }
}
