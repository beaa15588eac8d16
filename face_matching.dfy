/** Face encoding and one-to-one face comparison (`encode_face` and `compare_faces`).
    The face_recognition library is not part of the model: what its calls answer is
    given to each operation as an input, and a call may raise. */
module FaceMatching {
  import opened Wrappers

  /** A face encoding: a one-dimensional array of numbers, whose shape is its length. */
  type Encoding = seq<real>

  /** A detected face box, as (top, right, bottom, left). */
  datatype Location = Location(top: int, right: int, bottom: int, left: int)

  /** The three detection strategies, in the order they are tried: the HOG model,
      the CNN model, and the default model with two rounds of upsampling. */
  datatype Detector = Hog | Cnn | HogUpsampledTwice

  const Cascade: seq<Detector> := [Hog, Cnn, HogUpsampledTwice]

  /** The tolerance `compare_faces` uses when the caller gives none. */
  const DefaultTolerance: real := 0.4

  /** The distance assumed when the library returns no distance. */
  const MissingDistance: real := 1.0

  /** The strategies before position `k` of `order` all ran and found no face. */
  ghost predicate NoneFoundBefore(order: seq<Detector>, k: int, detect: Detector -> Call<seq<Location>>)
    requires 0 <= k <= |order|
  {
    forall j :: 0 <= j < k ==> detect(order[j]) == Returned([])
  }

  /** Runs the strategies of `order` one after another and stops at the first that finds
      a face. Yields the faces that strategy found, `None` when every strategy ran and
      found nothing, or `Raised` when a strategy raised before any found a face. */
  function FirstDetection(order: seq<Detector>, detect: Detector -> Call<seq<Location>>): (r: Call<Option<seq<Location>>>)
    ensures r == Returned(None) <==> NoneFoundBefore(order, |order|, detect)
    ensures r.Returned? && r.value.Some? ==>
      exists k :: 0 <= k < |order| && NoneFoundBefore(order, k, detect) &&
        detect(order[k]) == Returned(r.value.value) && r.value.value != []
    ensures r.Raised? ==>
      exists k :: 0 <= k < |order| && NoneFoundBefore(order, k, detect) && detect(order[k]).Raised?
  {
    if order == [] then Returned(None)
    else
      match detect(order[0])
      case Raised => Raised
      case Returned(faces) =>
        if faces != [] then Returned(Some(faces))
        else
          var rest := FirstDetection(order[1..], detect);
          assert forall j :: 1 <= j <= |order| ==> (NoneFoundBefore(order, j, detect) <==> NoneFoundBefore(order[1..], j - 1, detect));
          rest
  }

  /** The strategy at position `k` is the first to find a face, and encoding the first
      face it found gives at least one encoding. */
  ghost predicate EncodedAt(detect: Detector -> Call<seq<Location>>, encode: Location -> Call<seq<Encoding>>, k: int)
    requires 0 <= k < |Cascade|
  {
    && NoneFoundBefore(Cascade, k, detect)
    && detect(Cascade[k]).Returned? && detect(Cascade[k]).value != []
    && encode(detect(Cascade[k]).value[0]).Returned? && encode(detect(Cascade[k]).value[0]).value != []
  }

  /** When the strategy at `k` is the first to find a face, the cascade yields its faces. */
  lemma {:induction false} FirstDetectionAt(order: seq<Detector>, detect: Detector -> Call<seq<Location>>, k: nat)
    requires k < |order| && NoneFoundBefore(order, k, detect)
    requires detect(order[k]).Returned? && detect(order[k]).value != []
    ensures FirstDetection(order, detect) == Returned(Some(detect(order[k]).value))
    decreases k
  {
    if k > 0 {
      assert detect(order[0]) == Returned([]);
      forall j | 0 <= j < k - 1
        ensures detect(order[1..][j]) == Returned([])
      {
        assert order[1..][j] == order[j + 1];
      }
      assert order[1..][k - 1] == order[k];
      FirstDetectionAt(order[1..], detect, k - 1);
    }
  }

  /** `encode_face`: detect faces with the cascade, then encode the first face found.
      `None` stands for every way the source returns None: no face, no encoding, or an
      exception from the library. */
  function EncodeFace(detect: Detector -> Call<seq<Location>>, encode: Location -> Call<seq<Encoding>>): (r: Option<Encoding>)
    ensures NoneFoundBefore(Cascade, |Cascade|, detect) ==> r.None?
    ensures r.Some? <==> exists k :: 0 <= k < |Cascade| && EncodedAt(detect, encode, k)
    ensures forall k :: 0 <= k < |Cascade| && EncodedAt(detect, encode, k) ==>
      r == Some(encode(detect(Cascade[k]).value[0]).value[0])
  {
    assert forall k :: 0 <= k < |Cascade| && EncodedAt(detect, encode, k) ==>
      FirstDetection(Cascade, detect) == Returned(Some(detect(Cascade[k]).value)) by {
      forall k | 0 <= k < |Cascade| && EncodedAt(detect, encode, k)
        ensures FirstDetection(Cascade, detect) == Returned(Some(detect(Cascade[k]).value))
      {
        FirstDetectionAt(Cascade, detect, k);
      }
    }
    match FirstDetection(Cascade, detect)
    case Raised => None
    case Returned(None) => None
    case Returned(Some(faces)) =>
      match encode(faces[0])
      case Raised => None
      case Returned(encodings) =>
        if encodings == [] then None
        else
          assert exists k :: 0 <= k < |Cascade| && EncodedAt(detect, encode, k) by {
            var k :| 0 <= k < |Cascade| && NoneFoundBefore(Cascade, k, detect) &&
              detect(Cascade[k]) == Returned(faces) && faces != [];
            assert EncodedAt(detect, encode, k);
          }
          Some(encodings[0])
  }

  /** Once the HOG detector finds a face, the slower strategies are never consulted:
      the encoding does not depend on what they would have answered. */
  lemma HogFaceSkipsFallbacks(detect: Detector -> Call<seq<Location>>, other: Detector -> Call<seq<Location>>,
                              encode: Location -> Call<seq<Encoding>>)
    requires detect(Hog).Returned? && detect(Hog).value != []
    requires other(Hog) == detect(Hog)
    ensures EncodeFace(detect, encode) == EncodeFace(other, encode)
  {
    assert FirstDetection(Cascade, detect) == Returned(Some(detect(Hog).value));
    assert FirstDetection(Cascade, other) == Returned(Some(detect(Hog).value));
  }

  /** The distance to the one known encoding, or `MissingDistance` when there is none. */
  function FirstDistance(ds: seq<real>): real {
    if |ds| > 0 then ds[0] else MissingDistance
  }

  /** `compare_faces(known, unknown, tolerance)`. `verdicts` is what the library's own
      comparison answered and `distances` what its distance function answered. */
  function CompareFaces(known: Option<Encoding>, unknown: Option<Encoding>, tolerance: real,
                        verdicts: Call<seq<bool>>, distances: Call<seq<real>>): (r: bool)
    ensures r <==>
      && known.Some? && unknown.Some? && |known.value| == |unknown.value|
      && verdicts.Returned? && verdicts.value != [] && verdicts.value[0]
      && distances.Returned? && FirstDistance(distances.value) <= tolerance
  {
    if known.None? || unknown.None? then false
    else if |known.value| != |unknown.value| then false
    else
      match verdicts
      case Raised => false
      case Returned(matches) =>
        var matchResult := if matches != [] then matches[0] else false;
        match distances
        case Raised => false
        case Returned(ds) =>
          var distance := FirstDistance(ds);
          if matchResult && distance > tolerance then false
          else matchResult
  }

  /** A match survives a smaller distance: with the library's verdict unchanged, a pair
      that matches at some distance also matches at any distance no larger. */
  lemma CompareFacesMonotonic(known: Option<Encoding>, unknown: Option<Encoding>, tolerance: real,
                              verdicts: Call<seq<bool>>, far: real, near: real)
    requires near <= far
    requires CompareFaces(known, unknown, tolerance, verdicts, Returned([far]))
    ensures CompareFaces(known, unknown, tolerance, verdicts, Returned([near]))
  {
  }

  /** When the library returns no distance, the default tolerance rejects the pair
      even if the library's own verdict was a match. */
  lemma MissingDistanceRejects(known: Option<Encoding>, unknown: Option<Encoding>, verdicts: Call<seq<bool>>)
    ensures !CompareFaces(known, unknown, DefaultTolerance, verdicts, Returned([]))
  {
  }

  /** The library's verdict is overruled, never widened: a "match" whose distance
      exceeds the tolerance is a rejection. */
  lemma DistanceOverrulesVerdict(known: Encoding, unknown: Encoding, tolerance: real, distance: real)
    requires |known| == |unknown|
    requires distance > tolerance
    ensures !CompareFaces(Some(known), Some(unknown), tolerance, Returned([true]), Returned([distance]))
  {
  }
}
