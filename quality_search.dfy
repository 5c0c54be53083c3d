/**
 * The size-bounded quality search of `compressImage`: starting at quality 100,
 * encode the image, accept the first encoding whose size fits the inclusive
 * 480 KiB ceiling, otherwise step the quality down by 5, giving up below 10.
 *
 * The lossy encoder is a parameter `encode` from a quality level to either an
 * encoded byte length or a failure, and the outcome of writing the accepted
 * buffer is a parameter `writeOk`. Nothing assumes that the encoded size falls
 * as the quality falls.
 */
module QualitySearch {
  import opened Wrappers

  const MaxSizeKB: nat := 480
  const MinQuality: int := 10
  const InitialQuality: int := 100
  const QualityStep: int := 5

  /** The largest byte length the kilobyte ceiling admits. */
  const CeilingBytes: nat := MaxSizeKB * 1024

  /** What one call of the encoder yields: the length of the encoded buffer, or an error. */
  datatype Encoding = Encoded(length: nat) | EncodeFailed

  /**
   * The size test as the source writes it: the length in binary kilobytes,
   * a fraction, compared with the ceiling. It is the integer test
   * `length <= 491520`.
   */
  predicate Fits(length: nat): (b: bool)
    ensures b <==> length <= CeilingBytes
  {
    (length as real) / 1024.0 <= MaxSizeKB as real
  }

  /** Quality `q` was encoded without error and the result was too large: the search moves on. */
  predicate Rejected(encode: int -> Encoding, q: int)
  {
    encode(q).Encoded? && !Fits(encode(q).length)
  }

  /** How many levels the loop visits from `q`: q, q - 5, ... down to the last one >= 10. */
  function LevelCount(q: int): nat
  {
    if q < MinQuality then 0 else (q - MinQuality) / QualityStep + 1
  }

  /** The quality levels the loop can reach from `q`, in the order it reaches them. */
  function Levels(q: int): (r: seq<int>)
    ensures |r| == LevelCount(q)
    ensures forall i :: 0 <= i < |r| ==> MinQuality <= r[i] && MinQuality > r[i] - QualityStep * (|r| - i)
  {
    seq(LevelCount(q), i => q - QualityStep * i)
  }

  /** Why the search stopped. */
  datatype Stop =
    | Accepted(quality: int, length: nat)  // this level fits: its buffer goes to the write
    | EncodeError(quality: int)            // the encoder failed at this level: the call fails at once
    | NoFit                                // every level was too large

  /** The levels handed to the encoder, in order, and why the search stopped. */
  datatype Trace = Trace(tried: seq<int>, stop: Stop)

  /** The search, from quality `q` on, as a function of the encoder (`RunShape` says what it does). */
  function Run(encode: int -> Encoding, q: int): Trace
    decreases if q < MinQuality then 0 else q - MinQuality + 1
  {
    if q < MinQuality then Trace([], NoFit)
    else
      match encode(q)
      case EncodeFailed => Trace([q], EncodeError(q))
      case Encoded(n) =>
        if Fits(n) then Trace([q], Accepted(q, n))
        else
          var rest := Run(encode, q - QualityStep);
          Trace([q] + rest.tried, rest.stop)
  }

  /** One step down the ladder leaves one level fewer. */
  lemma LevelCountStep(p: int)
    requires MinQuality <= p
    ensures LevelCount(p - QualityStep) == LevelCount(p) - 1
  {
  }

  /**
   * What the search does from quality `q`: the levels it tries are the first
   * ones of `Levels(q)`, in order; every level before the last one tried was
   * encoded and too large; it stops at the first level that was not, accepting
   * it when it fits and failing when the encoder failed there; and it finds no
   * fit only after rejecting every level.
   */
  lemma {:induction false} RunShape(encode: int -> Encoding, q: int)
    decreases if q < MinQuality then 0 else q - MinQuality + 1
    ensures var t := Run(encode, q);
      && |t.tried| <= LevelCount(q)
      && (forall i :: 0 <= i < |t.tried| ==> t.tried[i] == q - QualityStep * i)
      && (forall i :: 0 <= i < |t.tried| - 1 ==> Rejected(encode, t.tried[i]))
      && (t.stop.NoFit? ==> |t.tried| == LevelCount(q) && forall i :: 0 <= i < |t.tried| ==> Rejected(encode, t.tried[i]))
      && (!t.stop.NoFit? ==> |t.tried| > 0 && t.stop.quality == t.tried[|t.tried| - 1])
      && (t.stop.Accepted? ==> encode(t.stop.quality) == Encoded(t.stop.length) && t.stop.length <= CeilingBytes)
      && (t.stop.EncodeError? ==> encode(t.stop.quality) == EncodeFailed)
  {
    if q >= MinQuality && Rejected(encode, q) {
      var rest := Run(encode, q - QualityStep);
      assert Run(encode, q) == Trace([q] + rest.tried, rest.stop);
      RunShape(encode, q - QualityStep);
      LevelCountStep(q);
    }
  }

  /** The byte length handed to the write, if the search accepted a level. */
  function WrittenLength(s: Stop): Option<nat>
  {
    if s.Accepted? then Some(s.length) else None
  }

  /**
   * The loop of `compressImage`. `tried` lists the levels handed to the encoder,
   * `written` the length of the one buffer handed to the write (if any), and
   * `ok` is the function's boolean result.
   */
  method CompressSearch(encode: int -> Encoding, writeOk: bool) returns (ok: bool, tried: seq<int>, written: Option<nat>)
    ensures tried == Run(encode, InitialQuality).tried
    ensures written == WrittenLength(Run(encode, InitialQuality).stop)
    ensures ok <==> written.Some? && writeOk
  {
    var quality := InitialQuality;
    tried := [];
    while quality >= MinQuality
      invariant quality <= InitialQuality
      invariant Run(encode, InitialQuality).tried == tried + Run(encode, quality).tried
      invariant Run(encode, InitialQuality).stop == Run(encode, quality).stop
      decreases quality
    {
      var e := encode(quality);
      ghost var rest := Run(encode, quality - QualityStep);
      assert e.Encoded? && !Fits(e.length) ==> Run(encode, quality) == Trace([quality] + rest.tried, rest.stop);
      tried := tried + [quality];
      if e.EncodeFailed? {
        return false, tried, None;
      }
      if Fits(e.length) {
        written := Some(e.length);
        ok := writeOk;
        return;
      }
      quality := quality - QualityStep;
    }
    return false, tried, None;
  }

  /** The levels of the whole search are 100, 95, ..., 10: nineteen of them. */
  lemma {:induction false} LadderOfLevels()
    ensures |Levels(InitialQuality)| == 19
    ensures Levels(InitialQuality)[0] == 100 && Levels(InitialQuality)[18] == 10
    ensures forall i :: 0 <= i < 19 ==> Levels(InitialQuality)[i] == 100 - 5 * i
  {
  }

  /** Levels are tried in strictly decreasing order, from 100 down, and at most nineteen times. */
  lemma {:induction false} TriedInOrder(encode: int -> Encoding)
    ensures var t := Run(encode, InitialQuality);
      && |t.tried| <= 19
      && (forall i :: 0 <= i < |t.tried| ==> t.tried[i] == InitialQuality - QualityStep * i)
      && (forall i, j :: 0 <= i < j < |t.tried| ==> t.tried[i] > t.tried[j])
  {
    var t := Run(encode, InitialQuality);
    RunShape(encode, InitialQuality);
    LadderOfLevels();
    assert forall i :: 0 <= i < |t.tried| ==> t.tried[i] == Levels(InitialQuality)[i];
  }

  /** A level that appears in `Levels(p)` sits at the index its distance from `p` gives. */
  lemma LevelIndex(p: int, q: int) returns (k: nat)
    requires q in Levels(p)
    ensures k < LevelCount(p) && q == p - QualityStep * k
    ensures forall r :: r in Levels(p) && r > q ==> exists i :: 0 <= i < k && r == p - QualityStep * i
  {
    var i :| 0 <= i < LevelCount(p) && Levels(p)[i] == q;
    k := i;
    forall r | r in Levels(p) && r > q
      ensures exists i :: 0 <= i < k && r == p - QualityStep * i
    {
      var j :| 0 <= j < LevelCount(p) && Levels(p)[j] == r;
      assert j < k && r == p - QualityStep * j;
    }
  }

  /**
   * From any start `p`: if the level at index `k` of `Levels(p)` is the first
   * one that is not rejected, the search tries exactly the levels down to it
   * and stops there.
   */
  lemma {:induction false} RunStopsAtFirstDecisive(encode: int -> Encoding, p: int, k: nat)
    requires k < LevelCount(p)
    requires forall i :: 0 <= i < k ==> Rejected(encode, p - QualityStep * i)
    requires !Rejected(encode, p - QualityStep * k)
    ensures !Run(encode, p).stop.NoFit? && Run(encode, p).stop.quality == p - QualityStep * k
    ensures |Run(encode, p).tried| == k + 1
  {
    LevelCountStep(p);
    var rest := Run(encode, p - QualityStep);
    if k > 0 {
      assert Rejected(encode, p) by {
        assert p - QualityStep * 0 == p;
      }
      assert Run(encode, p) == Trace([p] + rest.tried, rest.stop);
      forall i | 0 <= i < k - 1
        ensures Rejected(encode, p - QualityStep - QualityStep * i)
      {
        assert Rejected(encode, p - QualityStep * (i + 1));
      }
      RunStopsAtFirstDecisive(encode, p - QualityStep, k - 1);
    } else {
      assert !Rejected(encode, p);
      assert Run(encode, p).tried == [p];
    }
  }

  /**
   * First fit, in one direction: when the search accepts, the accepted level
   * is one of the ladder's, its length is within the ceiling, and every
   * higher level was encoded and was too large.
   */
  lemma {:induction false} AcceptedIsFirstFit(encode: int -> Encoding, q: int, n: nat)
    requires Run(encode, InitialQuality).stop == Accepted(q, n)
    ensures q in Levels(InitialQuality)
    ensures n <= CeilingBytes && encode(q) == Encoded(n)
    ensures forall r :: r in Levels(InitialQuality) && r > q ==> Rejected(encode, r)
  {
    var t := Run(encode, InitialQuality);
    RunShape(encode, InitialQuality);
    var k := |t.tried| - 1;
    assert Levels(InitialQuality)[k] == q;
    forall r | r in Levels(InitialQuality) && r > q
      ensures Rejected(encode, r)
    {
      var j :| 0 <= j < LevelCount(InitialQuality) && Levels(InitialQuality)[j] == r;
      assert t.tried[j] == r;
    }
  }

  /**
   * First fit, in the other direction: the highest level that fits, with every
   * level above it rejected, is the level the search accepts.
   */
  lemma {:induction false} FirstFitIsAccepted(encode: int -> Encoding, q: int)
    requires q in Levels(InitialQuality)
    requires encode(q).Encoded? && Fits(encode(q).length)
    requires forall r :: r in Levels(InitialQuality) && r > q ==> Rejected(encode, r)
    ensures Run(encode, InitialQuality).stop == Accepted(q, encode(q).length)
  {
    var k := LevelIndex(InitialQuality, q);
    forall i | 0 <= i < k
      ensures Rejected(encode, InitialQuality - QualityStep * i)
    {
      assert Levels(InitialQuality)[i] in Levels(InitialQuality);
    }
    RunStopsAtFirstDecisive(encode, InitialQuality, k);
    RunShape(encode, InitialQuality);
  }

  /**
   * An encoder error at a level the search reaches ends the search there: the
   * levels above it were tried, no lower level is, and nothing is written.
   */
  lemma {:induction false} EncodeErrorAborts(encode: int -> Encoding, q: int)
    requires q in Levels(InitialQuality)
    requires encode(q) == EncodeFailed
    requires forall r :: r in Levels(InitialQuality) && r > q ==> Rejected(encode, r)
    ensures Run(encode, InitialQuality).stop == EncodeError(q)
    ensures forall r :: r in Run(encode, InitialQuality).tried <==> r in Levels(InitialQuality) && r >= q
    ensures WrittenLength(Run(encode, InitialQuality).stop) == None
  {
    var k := LevelIndex(InitialQuality, q);
    forall i | 0 <= i < k
      ensures Rejected(encode, InitialQuality - QualityStep * i)
    {
      assert Levels(InitialQuality)[i] in Levels(InitialQuality);
    }
    RunStopsAtFirstDecisive(encode, InitialQuality, k);
    var t := Run(encode, InitialQuality);
    RunShape(encode, InitialQuality);
    forall r
      ensures r in t.tried <==> r in Levels(InitialQuality) && r >= q
    {
      if r in t.tried {
        var j :| 0 <= j < |t.tried| && t.tried[j] == r;
        assert Levels(InitialQuality)[j] == r;
      }
      if r in Levels(InitialQuality) && r >= q {
        var j :| 0 <= j < LevelCount(InitialQuality) && Levels(InitialQuality)[j] == r;
        assert t.tried[j] == r;
      }
    }
  }

  /** The search finds no fit exactly when every level from 100 down to 10 was encoded and too large. */
  lemma {:induction false} NoFitIffAllTooLarge(encode: int -> Encoding)
    ensures Run(encode, InitialQuality).stop == NoFit <==>
            forall q :: q in Levels(InitialQuality) ==> encode(q).Encoded? && encode(q).length > CeilingBytes
  {
    var t := Run(encode, InitialQuality);
    RunShape(encode, InitialQuality);
    if t.stop != NoFit {
      var k := |t.tried| - 1;
      assert Levels(InitialQuality)[k] == t.stop.quality;
    } else {
      forall q | q in Levels(InitialQuality)
        ensures encode(q).Encoded? && encode(q).length > CeilingBytes
      {
        var j :| 0 <= j < LevelCount(InitialQuality) && Levels(InitialQuality)[j] == q;
        assert Rejected(encode, t.tried[j]);
      }
    }
  }
}
