/** The decorative floating particles: the welcome screen draws 30, the page
    background 20. Particle `i` is placed at integer percentages computed from
    `i` alone; only the animation delay is fractional and is not modelled. */
module Particles {
  import opened Arith

  const WelcomeCount: nat := 30
  const BackgroundCount: nat := 20

  /** Horizontal and vertical position in percent, animation duration in seconds. */
  datatype Particle = Particle(left: int, top: int, duration: int)

  /** `left` of particle `i`. The index is never negative, so JavaScript's `%`
      agrees with Dafny's. */
  function Left(i: nat): (r: int)
    ensures 0 <= r < 90
  {
    (i * 7 + 10) % 90
  }

  /** `top` of particle `i`. */
  function Top(i: nat): (r: int)
    ensures 0 <= r < 85
  {
    (i * 11 + 15) % 85
  }

  function WelcomeParticle(i: nat): (r: Particle)
    ensures 0 <= r.left < 90 && 0 <= r.top < 85
    ensures 2 <= r.duration <= 4
  {
    Particle(Left(i), Top(i), 2 + i % 3)
  }

  function BackgroundParticle(i: nat): (r: Particle)
    ensures 0 <= r.left < 90 && 0 <= r.top < 85
    ensures 3 <= r.duration <= 6
  {
    Particle(Left(i), Top(i), 3 + i % 4)
  }

  function WelcomeLayout(): (r: seq<Particle>)
    ensures |r| == WelcomeCount
    ensures forall i :: 0 <= i < |r| ==> 0 <= r[i].left < 90 && 0 <= r[i].top < 85 && 2 <= r[i].duration <= 4
  {
    seq(WelcomeCount, i requires 0 <= i => WelcomeParticle(i))
  }

  function BackgroundLayout(): (r: seq<Particle>)
    ensures |r| == BackgroundCount
    ensures forall i :: 0 <= i < |r| ==> 0 <= r[i].left < 90 && 0 <= r[i].top < 85 && 3 <= r[i].duration <= 6
  {
    seq(BackgroundCount, i requires 0 <= i => BackgroundParticle(i))
  }

  /** Two indices below 90 with the same `left` are equal: 7 has the inverse
      13 modulo 90 (7 * 13 = 91). */
  lemma LeftInjective(i: nat, j: nat)
    requires i < 90 && j < 90 && Left(i) == Left(j)
    ensures i == j
  {
    var a, b := (i * 7 + 10) / 90, (j * 7 + 10) / 90;
    assert i * 7 + 10 == a * 90 + Left(i);
    assert j * 7 + 10 == b * 90 + Left(j);
    var d := i - j;
    assert 7 * d == (a - b) * 90;
    assert 91 * d == 13 * (7 * d);
    assert d == (13 * (a - b) - d) * 90;
    SmallMultipleIsZero(d, 90, 13 * (a - b) - d);
  }

  /** Two indices below 85 with the same `top` are equal: 11 has the inverse
      31 modulo 85 (11 * 31 = 4 * 85 + 1). */
  lemma TopInjective(i: nat, j: nat)
    requires i < 85 && j < 85 && Top(i) == Top(j)
    ensures i == j
  {
    var a, b := (i * 11 + 15) / 85, (j * 11 + 15) / 85;
    assert i * 11 + 15 == a * 85 + Top(i);
    assert j * 11 + 15 == b * 85 + Top(j);
    var d := i - j;
    assert 11 * d == (a - b) * 85;
    assert 341 * d == 31 * (11 * d);
    assert d == (31 * (a - b) - 4 * d) * 85;
    SmallMultipleIsZero(d, 85, 31 * (a - b) - 4 * d);
  }

  /** No two welcome particles share a column or a row. */
  lemma WelcomeSpread()
    ensures forall i, j :: 0 <= i < j < WelcomeCount ==>
      WelcomeLayout()[i].left != WelcomeLayout()[j].left && WelcomeLayout()[i].top != WelcomeLayout()[j].top
  {
    forall i, j | 0 <= i < j < WelcomeCount
      ensures WelcomeLayout()[i].left != WelcomeLayout()[j].left && WelcomeLayout()[i].top != WelcomeLayout()[j].top
    {
      if Left(i) == Left(j) {
        LeftInjective(i, j);
      }
      if Top(i) == Top(j) {
        TopInjective(i, j);
      }
    }
  }

  /** The background particles occupy the first 20 welcome positions: same
      columns and rows, so they too never share one. */
  lemma BackgroundSharesWelcomePositions()
    ensures forall i :: 0 <= i < BackgroundCount ==>
      BackgroundLayout()[i].left == WelcomeLayout()[i].left && BackgroundLayout()[i].top == WelcomeLayout()[i].top
  {
  }

  /** Durations cycle with periods 3 and 4 and reach both ends of their ranges. */
  lemma DurationsCycle(i: nat)
    ensures WelcomeParticle(i + 3).duration == WelcomeParticle(i).duration
    ensures BackgroundParticle(i + 4).duration == BackgroundParticle(i).duration
    ensures WelcomeParticle(0).duration == 2 && WelcomeParticle(2).duration == 4
    ensures BackgroundParticle(0).duration == 3 && BackgroundParticle(3).duration == 6
  {
    ModUnique(i + 3, 3, i / 3 + 1, i % 3);
    ModUnique(i + 4, 4, i / 4 + 1, i % 4);
  }
}
