/**
 * Face login (`POST /api/login-face`): the stored encodings of every active descriptor are
 * compared with the probe face, the nearest one is kept, and the login is accepted only
 * when that nearest distance is below a threshold.
 *
 * The Euclidean distance between two 128-float descriptors is computed by face-api.js;
 * here each row of the query result carries the distance it produced, or `None` when
 * parsing or comparing that row's stored encoding threw.
 */
module FaceLogin {
  import opened Wrappers

  /** The running best starts here: a row is a candidate only if strictly closer. */
  const InitialDistance: real := 1.0

  /** A nearest row is accepted only if strictly closer than this. */
  const AcceptThreshold: real := 0.85

  /** One row of the active-descriptor query: the user it belongs to and the distance
      from the probe to its stored encoding (`None` when that encoding is malformed). */
  datatype FaceRow = FaceRow(usuarioId: nat, nombreCompleto: string, distance: Option<real>)

  /** The scan's running state: the index of the best row so far, and its distance. */
  datatype Best = Best(index: Option<nat>, distance: real)

  /** The scan as a left fold over the rows, starting from `ceiling`: a well-formed row
      replaces the running best only when it is strictly closer. */
  function Scan(rows: seq<FaceRow>, ceiling: real): Best
    decreases |rows|
  {
    if rows == [] then Best(None, ceiling)
    else
      var prev := Scan(rows[..|rows| - 1], ceiling);
      var d := rows[|rows| - 1].distance;
      if d.Some? && d.value < prev.distance then Best(Some(|rows| - 1), d.value) else prev
  }

  /** `b` names the first of the well-formed rows at minimum distance, provided that
      distance is below `ceiling`; otherwise it names no row and keeps `ceiling`. */
  predicate IsEarliestNearest(rows: seq<FaceRow>, ceiling: real, b: Best)
  {
    && (b.index.None? ==>
          && b.distance == ceiling
          && forall i :: 0 <= i < |rows| && rows[i].distance.Some? ==> ceiling <= rows[i].distance.value)
    && (b.index.Some? ==>
          && b.index.value < |rows|
          && rows[b.index.value].distance == Some(b.distance)
          && b.distance < ceiling
          && (forall i :: 0 <= i < |rows| && rows[i].distance.Some? ==> b.distance <= rows[i].distance.value)
          && (forall i :: 0 <= i < b.index.value && rows[i].distance.Some? ==> b.distance < rows[i].distance.value))
  }

  /** The fold computes the earliest nearest well-formed row below the ceiling: malformed
      rows are passed over and the rows after them are still compared. */
  lemma {:induction false} ScanFindsEarliestNearest(rows: seq<FaceRow>, ceiling: real)
    ensures IsEarliestNearest(rows, ceiling, Scan(rows, ceiling))
  {
    if rows != [] {
      var init := rows[..|rows| - 1];
      ScanFindsEarliestNearest(init, ceiling);
      assert forall i :: 0 <= i < |init| ==> init[i] == rows[i];
    }
  }

  /** At most one running state satisfies the description, so it determines the scan. */
  lemma EarliestNearestIsUnique(rows: seq<FaceRow>, ceiling: real, b1: Best, b2: Best)
    requires IsEarliestNearest(rows, ceiling, b1)
    requires IsEarliestNearest(rows, ceiling, b2)
    ensures b1 == b2
  {
  }

  /** Login acceptance: a row was chosen and it is closer than the threshold. */
  predicate Accepted(b: Best)
  {
    b.index.Some? && b.distance < AcceptThreshold
  }

  /** The login is accepted exactly when some well-formed row is closer than the
      threshold; an empty result or all rows at 0.85 or more is a rejection. */
  lemma AcceptedIffSomeRowBelowThreshold(rows: seq<FaceRow>)
    ensures Accepted(Scan(rows, InitialDistance)) <==>
            exists i :: 0 <= i < |rows| && rows[i].distance.Some? && rows[i].distance.value < AcceptThreshold
  {
    ScanFindsEarliestNearest(rows, InitialDistance);
  }

  /** Starting the running best at 1.0 and then testing against 0.85 decides the same as
      starting it at 0.85: the same rows are accepted and the same row is chosen. */
  lemma CeilingAtThresholdIsEquivalent(rows: seq<FaceRow>)
    ensures Accepted(Scan(rows, InitialDistance)) <==> Scan(rows, AcceptThreshold).index.Some?
    ensures Accepted(Scan(rows, InitialDistance)) ==> Scan(rows, InitialDistance) == Scan(rows, AcceptThreshold)
  {
    var b, c := Scan(rows, InitialDistance), Scan(rows, AcceptThreshold);
    ScanFindsEarliestNearest(rows, InitialDistance);
    ScanFindsEarliestNearest(rows, AcceptThreshold);
    if Accepted(b) {
      assert IsEarliestNearest(rows, AcceptThreshold, b);
      EarliestNearestIsUnique(rows, AcceptThreshold, b, c);
    }
  }

  /** The matching loop: every row is visited, a row that is malformed is skipped, and
      the running best moves only to a strictly closer row. */
  method FindBestMatch(rows: seq<FaceRow>) returns (best: Best)
    ensures best == Scan(rows, InitialDistance)
    ensures IsEarliestNearest(rows, InitialDistance, best)
  {
    best := Best(None, InitialDistance);
    for i := 0 to |rows|
      invariant best == Scan(rows[..i], InitialDistance)
    {
      assert rows[..i + 1][..i] == rows[..i];
      match rows[i].distance {
        case Some(d) =>
          if d < best.distance {
            best := Best(Some(i), d);
          }
        case None =>
      }
    }
    assert rows[..|rows|] == rows;
    ScanFindsEarliestNearest(rows, InitialDistance);
  }

  /** The response of `POST /api/login-face`. */
  datatype LoginOutcome =
    | MissingImage                            // 400 "No se envió imagen."
    | DetectionFailed                         // 500 "Error general del servidor."
    | NoFaceDetected                          // 400 "No se detectó ningún rostro."
    | QueryFailed                             // 500 "Error en el servidor."
    | Recognized(user: FaceRow, distance: real) // 200, success: true
    | NotRecognized                           // 401 "Rostro no reconocido."

  function HttpStatus(o: LoginOutcome): nat
  {
    match o
    case MissingImage => 400
    case DetectionFailed => 500
    case NoFaceDetected => 400
    case QueryFailed => 500
    case Recognized(_, _) => 200
    case NotRecognized => 401
  }

  /** The handler: the upload and detection checks, then the query, then the scan and
      the threshold. `detectionThrew` is true when loading the upload or running the
      detector throws, which the handler's outer `catch` answers with a 500;
      `query` is `None` when the active-descriptor query failed. */
  method LoginFace(imageSent: bool, detectionThrew: bool, faceDetected: bool, query: Option<seq<FaceRow>>)
    returns (o: LoginOutcome)
    ensures HttpStatus(o) == 400 <==> !imageSent || (!detectionThrew && !faceDetected)
    ensures HttpStatus(o) == 500 <==>
              imageSent && (detectionThrew || (faceDetected && query.None?))
    ensures HttpStatus(o) == 200 <==> o.Recognized?
    ensures HttpStatus(o) == 401 <==> o == NotRecognized
    ensures o == MissingImage <==> !imageSent
    ensures o == DetectionFailed <==> imageSent && detectionThrew
    ensures o == NoFaceDetected <==> imageSent && !detectionThrew && !faceDetected
    ensures o == QueryFailed <==> imageSent && !detectionThrew && faceDetected && query.None?
    ensures o.Recognized? <==>
              && imageSent && !detectionThrew && faceDetected && query.Some?
              && exists i :: 0 <= i < |query.value| && query.value[i].distance.Some?
                                                   && query.value[i].distance.value < AcceptThreshold
    ensures o.Recognized? ==>
              && o.distance < AcceptThreshold
              && o.user in query.value
              && o.user.distance == Some(o.distance)
              && forall r :: r in query.value && r.distance.Some? ==> o.distance <= r.distance.value
    ensures o.Recognized? ==>
              exists i :: && 0 <= i < |query.value| && o.user == query.value[i]
                          && forall j :: 0 <= j < i && query.value[j].distance.Some? ==>
                                           o.distance < query.value[j].distance.value
  {
    if !imageSent {
      return MissingImage;
    }
    if detectionThrew {
      return DetectionFailed;
    }
    if !faceDetected {
      return NoFaceDetected;
    }
    if query.None? {
      return QueryFailed;
    }
    var rows := query.value;
    var best := FindBestMatch(rows);
    AcceptedIffSomeRowBelowThreshold(rows);
    if best.index.Some? && best.distance < AcceptThreshold {
      o := Recognized(rows[best.index.value], best.distance);
    } else {
      o := NotRecognized;
    }
  }
}
