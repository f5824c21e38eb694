/**
 * The bounded random integer generator (generate_64bit_value) and the
 * rejection-sampling loops built on it.  The source draws from the C library's
 * rand(); here the draws come from an explicit stream, so that every run of the
 * generator is a function of that stream.
 */
module Random {

  function Abs(v: int): nat {
    if v < 0 then -v else v
  }

  /**
   * generate_64bit_value(low, high) with the full-width value it assembles from
   * rand() given as `raw`.  An empty range (and the guard on |low| + |high|)
   * yields 0; otherwise the result is `raw` reduced into [low, high].
   */
  function Generate64(low: int, high: int, raw: nat): (r: int)
    ensures low > high ==> r == 0
    ensures low <= high ==> low <= r <= high
  {
    if low > high || Abs(low) + Abs(high) <= 0 then 0
    else low + raw % (high - low + 1)
  }

  /** Every value of a non-empty range is produced by some raw draw. */
  lemma Generate64Covers(low: int, high: int, v: int)
    requires low <= v <= high
    ensures Generate64(low, high, v - low) == v
  {
  }

  /** The values of [low, high] that are not in `avoid`, in increasing order. */
  function AllowedValues(low: int, high: int, avoid: seq<int>): (r: seq<int>)
    ensures forall v :: v in r <==> low <= v <= high && v !in avoid
    ensures forall i, j :: 0 <= i < j < |r| ==> r[i] < r[j]
    decreases high - low
  {
    if low > high then []
    else
      var rest := AllowedValues(low + 1, high, avoid);
      assert forall j :: 0 <= j < |rest| ==> low < rest[j] by {
        forall j | 0 <= j < |rest| ensures low < rest[j] {
          assert rest[j] in rest;
        }
      }
      (if low in avoid then [] else [low]) + rest
  }

  /**
   * The do-while loops that redraw until the value avoids the forbidden ones:
   * one draw among the allowed values.  Rejection sampling over a uniform source
   * is uniform over the allowed values, and so is this pick.
   */
  function ChooseAvoiding(low: int, high: int, avoid: seq<int>, raw: nat): (r: int)
    requires exists v :: low <= v <= high && v !in avoid
    ensures low <= r <= high && r !in avoid
  {
    var allowed := AllowedValues(low, high, avoid);
    assert |allowed| > 0 by {
      var v :| low <= v <= high && v !in avoid;
      assert v in allowed;
    }
    var k := Generate64(0, |allowed| - 1, raw);
    assert allowed[k] in allowed;
    allowed[k]
  }

  /** Every allowed value is the pick of some raw draw. */
  lemma {:induction false} ChooseAvoidingCovers(low: int, high: int, avoid: seq<int>, v: int)
    requires low <= v <= high && v !in avoid
    ensures exists raw: nat :: ChooseAvoiding(low, high, avoid, raw) == v
  {
    var allowed := AllowedValues(low, high, avoid);
    assert v in allowed;
    var k :| 0 <= k < |allowed| && allowed[k] == v;
    Generate64Covers(0, |allowed| - 1, k);
    assert ChooseAvoiding(low, high, avoid, k) == v;
  }

  /** The source of random draws (the state behind rand()). */
  class Rng {
    const stream: nat -> nat
    var used: nat

    constructor (stream: nat -> nat)
      ensures this.stream == stream && used == 0
    {
      this.stream := stream;
      used := 0;
    }

    /** The next draw of the stream. */
    method Next() returns (raw: nat)
      modifies this
      ensures raw == stream(old(used)) && used == old(used) + 1
    {
      raw := stream(used);
      used := used + 1;
    }
  }
}
