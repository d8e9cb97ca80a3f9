/**
 * The attendance kiosk's recognition session: the page-level state of the client
 * (`labeledFaceDescriptors`, `modelsLoaded`, `selectedEmpresaId`, `loadedUsers`,
 * `recognitionActive`, `intervalId`) and the handlers that change it.
 *
 * The browser's part is made explicit: `streamAttached` is whether the video element
 * holds a camera stream, `loadedDataListeners` counts the 'loadeddata' listeners added to
 * it, and `runningTimers` is the set of interval ids that have been created and not
 * cleared. Each POST and warning the client issues is appended to `actions`. Face
 * detection, matching and photo capture are inputs: a tick receives, per detected face,
 * the matcher's label and the photo taken when that face is handled.
 */
module Recognition {
  import opened Wrappers
  import opened Text

  /** The device identifier sent with every registration. */
  const DeviceCode: string := "02"

  /** The label the matcher gives a face that matches no descriptor. */
  const UnknownLabel: string := "unknown"

  /** One reference face: a user's label and the descriptor of their stored photo. */
  datatype LabeledDescriptor = LabeledDescriptor(userLabel: string, descriptor: seq<real>)

  /** One detected face in a tick: the matcher's label and the captured photo. */
  datatype FaceResult = FaceResult(userLabel: string, photo: string)

  /** What the client sends or shows for one recognized or unrecognized face. */
  datatype Action =
    | FailedAttempt(nombre: string, empresaId: Option<string>, motivo: string, fotoIntento: string, deviceCode: string)
    | Entry(usuario: string, empresaId: Option<string>, deviceCode: string, resultado: string, fotoIntento: string)
    | Exit(usuario: string, empresaId: Option<string>, deviceCode: string)
    | SelectTipoWarning

  // ---------------------------------------------------------------------------
  // What one face leads to
  // ---------------------------------------------------------------------------

  /** The failed-attempt report for an unrecognized face. */
  function FailedAttemptAction(photo: string, empresaId: Option<string>): (a: Action)
    ensures a.FailedAttempt? && a.nombre == "Desconocido" && a.motivo == "Usuario no registrado"
    ensures a.fotoIntento == photo && a.empresaId == empresaId && a.deviceCode == DeviceCode
  {
    FailedAttempt("Desconocido", empresaId, "Usuario no registrado", photo, DeviceCode)
  }

  /** The routing of a recognized face by the entry/exit selector: no selection only
      warns, "entrada" registers an entry with the photo, anything else an exit without
      one. The user id is looked up by `usuario` on the server. */
  function RecognitionAction(usuario: string, photo: string, tipo: string, empresaId: Option<string>): (a: Action)
    ensures a == SelectTipoWarning <==> tipo == ""
    ensures a.Entry? <==> tipo == "entrada"
    ensures a.Exit? <==> tipo != "" && tipo != "entrada"
    ensures a.Entry? ==> a == Entry(usuario, empresaId, DeviceCode, "Exitosa", photo)
    ensures a.Exit? ==> a == Exit(usuario, empresaId, DeviceCode)
  {
    if tipo == "" then SelectTipoWarning
    else if tipo == "entrada" then Entry(usuario, empresaId, DeviceCode, "Exitosa", photo)
    else Exit(usuario, empresaId, DeviceCode)
  }

  /** The action for one face of a tick. */
  function FaceAction(r: FaceResult, tipo: string, empresaId: Option<string>): Action
  {
    if r.userLabel == UnknownLabel then FailedAttemptAction(r.photo, empresaId)
    else RecognitionAction(r.userLabel, r.photo, tipo, empresaId)
  }

  /** The actions of one tick that has descriptors to match against. */
  function TickActions(results: seq<FaceResult>, tipo: string, empresaId: Option<string>): (acts: seq<Action>)
    ensures |acts| == |results|
    ensures forall i :: 0 <= i < |results| ==> acts[i] == FaceAction(results[i], tipo, empresaId)
    decreases |results|
  {
    if results == [] then []
    else TickActions(results[..|results| - 1], tipo, empresaId) + [FaceAction(results[|results| - 1], tipo, empresaId)]
  }

  function UnknownFaces(results: seq<FaceResult>): nat
  {
    if results == [] then 0 else (if results[0].userLabel == UnknownLabel then 1 else 0) + UnknownFaces(results[1..])
  }

  function FailedAttempts(acts: seq<Action>): nat
  {
    if acts == [] then 0 else (if acts[0].FailedAttempt? then 1 else 0) + FailedAttempts(acts[1..])
  }

  function Registrations(acts: seq<Action>): nat
  {
    if acts == [] then 0 else (if acts[0].Entry? || acts[0].Exit? then 1 else 0) + Registrations(acts[1..])
  }

  lemma {:induction false} CountsOfFaceActions(results: seq<FaceResult>, acts: seq<Action>, tipo: string, empresaId: Option<string>)
    requires |acts| == |results|
    requires forall i :: 0 <= i < |results| ==> acts[i] == FaceAction(results[i], tipo, empresaId)
    ensures FailedAttempts(acts) == UnknownFaces(results)
    ensures Registrations(acts) == if tipo == "" then 0 else |results| - UnknownFaces(results)
  {
    if results != [] {
      CountsOfFaceActions(results[1..], acts[1..], tipo, empresaId);
    }
  }

  /** In a tick, every unrecognized face gives exactly one failed-attempt report, and
      every recognized face one entry or exit registration when a type is selected and
      none when it is not. */
  lemma TickCounts(results: seq<FaceResult>, tipo: string, empresaId: Option<string>)
    ensures FailedAttempts(TickActions(results, tipo, empresaId)) == UnknownFaces(results)
    ensures Registrations(TickActions(results, tipo, empresaId)) ==
            if tipo == "" then 0 else |results| - UnknownFaces(results)
  {
    CountsOfFaceActions(results, TickActions(results, tipo, empresaId), tipo, empresaId);
  }

  // ---------------------------------------------------------------------------
  // Reference descriptors
  // ---------------------------------------------------------------------------

  /** The descriptors loaded for `labels` processed in order: one per label whose photo
      yields a face. */
  function DescriptorsFor(labels: seq<string>, detect: string -> Option<seq<real>>): (ds: seq<LabeledDescriptor>)
    ensures |ds| <= |labels|
    ensures forall k :: 0 <= k < |ds| ==> ds[k].userLabel in labels && detect(ds[k].userLabel) == Some(ds[k].descriptor)
    decreases |labels|
  {
    if labels == [] then []
    else
      var l := labels[|labels| - 1];
      DescriptorsFor(labels[..|labels| - 1], detect) + (if detect(l).Some? then [LabeledDescriptor(l, detect(l).value)] else [])
  }

  /** The labels of a descriptor list. */
  function Labels(ds: seq<LabeledDescriptor>): (ls: seq<string>)
    ensures |ls| == |ds|
    ensures forall k :: 0 <= k < |ds| ==> ls[k] == ds[k].userLabel
  {
    if ds == [] then [] else [ds[0].userLabel] + Labels(ds[1..])
  }

  /** Labels processed without repetition give at most one descriptor per user, and a
      user with a detectable photo always gets one. */
  lemma {:induction false} DescriptorLabelsAreDistinct(labels: seq<string>, detect: string -> Option<seq<real>>)
    requires NoDuplicates(labels)
    ensures NoDuplicates(Labels(DescriptorsFor(labels, detect)))
    ensures forall l | l in labels && detect(l).Some? :: LabeledDescriptor(l, detect(l).value) in DescriptorsFor(labels, detect)
  {
    if labels != [] {
      var init, l := labels[..|labels| - 1], labels[|labels| - 1];
      assert labels == init + [l];
      DescriptorLabelsAreDistinct(init, detect);
      var prev := DescriptorsFor(init, detect);
      assert l !in init;
      forall k | 0 <= k < |prev| ensures prev[k].userLabel != l {
        assert prev[k].userLabel in init;
      }
    }
  }

  /** One more label processed: it is new exactly when it is not among the labels seen,
      and only a new label can add a descriptor. */
  lemma LoadStep(seen: seq<string>, l: string, detect: string -> Option<seq<real>>)
    ensures (set x | x in seen + [l]) == (set x | x in seen) + {l}
    ensures l in seen ==> DescriptorsFor(Distinct(seen + [l]), detect) == DescriptorsFor(Distinct(seen), detect)
    ensures l !in seen ==>
              DescriptorsFor(Distinct(seen + [l]), detect) ==
              DescriptorsFor(Distinct(seen), detect) + (if detect(l).Some? then [LabeledDescriptor(l, detect(l).value)] else [])
  {
    SetOfSnoc(seen, l);
    DistinctSnoc(seen, l);
    if l !in seen {
      var d := Distinct(seen) + [l];
      assert d[..|d| - 1] == Distinct(seen) && d[|d| - 1] == l;
    }
  }

  lemma SetOfSnoc(seen: seq<string>, l: string)
    ensures (set x | x in seen + [l]) == (set x | x in seen) + {l}
  {
    forall x ensures x in seen + [l] <==> x in seen || x == l {
    }
  }

  /** The interval ids `from`, ..., `to - 1`. */
  function TimerIds(from: nat, to: nat): (ids: set<nat>)
    ensures forall t :: t in ids <==> (from <= t < to)
  {
    if to <= from then {} else TimerIds(from, to - 1) + {to - 1}
  }

  // ---------------------------------------------------------------------------
  // The session
  // ---------------------------------------------------------------------------

  class RecognitionSession {
    var labeledFaceDescriptors: seq<LabeledDescriptor>
    var modelsLoaded: bool
    var selectedEmpresaId: Option<string>
    var loadedUsers: set<string>
    var recognitionActive: bool
    var intervalId: Option<nat>
    var streamAttached: bool
    var loadedDataListeners: nat
    var runningTimers: set<nat>
    var nextTimerId: nat
    var actions: seq<Action>

    /** Every created interval that is still running is the one `intervalId` names. */
    predicate TimersTracked()
      reads this
    {
      forall t | t in runningTimers :: intervalId == Some(t)
    }

    /** The page as loaded: nothing selected, nothing loaded, camera off. */
    constructor ()
      ensures labeledFaceDescriptors == [] && !modelsLoaded && selectedEmpresaId.None? && loadedUsers == {}
      ensures !recognitionActive && intervalId.None? && !streamAttached && loadedDataListeners == 0
      ensures runningTimers == {} && nextTimerId == 0 && actions == []
      ensures TimersTracked()
    {
      labeledFaceDescriptors := [];
      modelsLoaded := false;
      selectedEmpresaId := None;
      loadedUsers := {};
      recognitionActive := false;
      intervalId := None;
      streamAttached := false;
      loadedDataListeners := 0;
      runningTimers := {};
      nextTimerId := 0;
      actions := [];
    }

    /** `loadModels` once the three networks are loaded. */
    method LoadModels()
      modifies this
      ensures modelsLoaded
      ensures labeledFaceDescriptors == old(labeledFaceDescriptors) && selectedEmpresaId == old(selectedEmpresaId)
      ensures loadedUsers == old(loadedUsers) && recognitionActive == old(recognitionActive)
      ensures intervalId == old(intervalId) && streamAttached == old(streamAttached)
      ensures loadedDataListeners == old(loadedDataListeners) && runningTimers == old(runningTimers)
      ensures nextTimerId == old(nextTimerId) && actions == old(actions)
    {
      modelsLoaded := true;
    }

    /** `loadUserDescriptor`: a label already seen in this load is skipped; otherwise it
        is marked as seen first, and its descriptor is added only if its photo yields a
        face (`detection`; a failed fetch is `None` too). */
    method LoadUserDescriptor(userLabel: string, detection: Option<seq<real>>)
      modifies this
      ensures userLabel in old(loadedUsers) ==> loadedUsers == old(loadedUsers) && labeledFaceDescriptors == old(labeledFaceDescriptors)
      ensures userLabel !in old(loadedUsers) ==>
                && loadedUsers == old(loadedUsers) + {userLabel}
                && labeledFaceDescriptors == old(labeledFaceDescriptors) +
                     (if detection.Some? then [LabeledDescriptor(userLabel, detection.value)] else [])
      ensures modelsLoaded == old(modelsLoaded) && selectedEmpresaId == old(selectedEmpresaId)
      ensures recognitionActive == old(recognitionActive) && intervalId == old(intervalId)
      ensures streamAttached == old(streamAttached) && loadedDataListeners == old(loadedDataListeners)
      ensures runningTimers == old(runningTimers) && nextTimerId == old(nextTimerId) && actions == old(actions)
    {
      if userLabel in loadedUsers {
        return;
      }
      loadedUsers := loadedUsers + {userLabel};
      if detection.Some? {
        labeledFaceDescriptors := labeledFaceDescriptors + [LabeledDescriptor(userLabel, detection.value)];
      }
    }

    /** `loadLabeledImagesAsync`: without a selected company nothing happens; otherwise
        both collections are emptied and the labels the server returns (`None` when the
        request fails) are loaded one after another. `detect` gives each label's
        detection result. */
    method LoadLabeledImages(labels: Option<seq<string>>, detect: string -> Option<seq<real>>)
      modifies this
      ensures !Truthy(old(selectedEmpresaId)) ==>
                loadedUsers == old(loadedUsers) && labeledFaceDescriptors == old(labeledFaceDescriptors)
      ensures Truthy(old(selectedEmpresaId)) && labels.None? ==> loadedUsers == {} && labeledFaceDescriptors == []
      ensures Truthy(old(selectedEmpresaId)) && labels.Some? ==>
                && loadedUsers == set l | l in labels.value
                && labeledFaceDescriptors == DescriptorsFor(Distinct(labels.value), detect)
      ensures modelsLoaded == old(modelsLoaded) && selectedEmpresaId == old(selectedEmpresaId)
      ensures recognitionActive == old(recognitionActive) && intervalId == old(intervalId)
      ensures streamAttached == old(streamAttached) && loadedDataListeners == old(loadedDataListeners)
      ensures runningTimers == old(runningTimers) && nextTimerId == old(nextTimerId) && actions == old(actions)
    {
      if !Truthy(selectedEmpresaId) {
        return;
      }
      labeledFaceDescriptors := [];
      loadedUsers := {};
      if labels.None? {
        return;
      }
      LoadEach(labels.value, detect);
    }

    /** The `for ... of labels` loop of `loadLabeledImagesAsync`, starting from emptied
        collections: `loadUserDescriptor` for each label in order. */
    method LoadEach(ls: seq<string>, detect: string -> Option<seq<real>>)
      modifies this
      requires loadedUsers == {} && labeledFaceDescriptors == []
      ensures loadedUsers == set l | l in ls
      ensures labeledFaceDescriptors == DescriptorsFor(Distinct(ls), detect)
      ensures modelsLoaded == old(modelsLoaded) && selectedEmpresaId == old(selectedEmpresaId)
      ensures recognitionActive == old(recognitionActive) && intervalId == old(intervalId)
      ensures streamAttached == old(streamAttached) && loadedDataListeners == old(loadedDataListeners)
      ensures runningTimers == old(runningTimers) && nextTimerId == old(nextTimerId) && actions == old(actions)
    {
      for i := 0 to |ls|
        invariant loadedUsers == set l | l in ls[..i]
        invariant labeledFaceDescriptors == DescriptorsFor(Distinct(ls[..i]), detect)
        invariant modelsLoaded == old(modelsLoaded) && selectedEmpresaId == old(selectedEmpresaId)
        invariant recognitionActive == old(recognitionActive) && intervalId == old(intervalId)
        invariant streamAttached == old(streamAttached) && loadedDataListeners == old(loadedDataListeners)
        invariant runningTimers == old(runningTimers) && nextTimerId == old(nextTimerId) && actions == old(actions)
      {
        assert ls[..i + 1] == ls[..i] + [ls[i]];
        LoadNext(ls[..i], ls[i], detect);
      }
      assert ls[..|ls|] == ls;
    }

    /** One iteration of that loop: after the labels `seen`, loading `userLabel` leaves
        the state the labels `seen + [userLabel]` lead to. */
    method LoadNext(ghost seen: seq<string>, userLabel: string, detect: string -> Option<seq<real>>)
      modifies this
      requires loadedUsers == set l | l in seen
      requires labeledFaceDescriptors == DescriptorsFor(Distinct(seen), detect)
      ensures loadedUsers == set l | l in seen + [userLabel]
      ensures labeledFaceDescriptors == DescriptorsFor(Distinct(seen + [userLabel]), detect)
      ensures modelsLoaded == old(modelsLoaded) && selectedEmpresaId == old(selectedEmpresaId)
      ensures recognitionActive == old(recognitionActive) && intervalId == old(intervalId)
      ensures streamAttached == old(streamAttached) && loadedDataListeners == old(loadedDataListeners)
      ensures runningTimers == old(runningTimers) && nextTimerId == old(nextTimerId) && actions == old(actions)
    {
      LoadStep(seen, userLabel, detect);
      LoadUserDescriptor(userLabel, detect(userLabel));
    }

    /** The company selector's click handler: record the choice; with a choice, load the
        models (`modelsOk` is false when that fails, which ends the handler) and then the
        company's descriptors. */
    method SelectEmpresa(value: string, modelsOk: bool, labels: Option<seq<string>>, detect: string -> Option<seq<real>>)
      modifies this
      ensures selectedEmpresaId == Some(value)
      ensures value == "" || !modelsOk ==>
                && loadedUsers == old(loadedUsers) && labeledFaceDescriptors == old(labeledFaceDescriptors)
                && modelsLoaded == old(modelsLoaded)
      ensures value != "" && modelsOk ==> modelsLoaded
      ensures value != "" && modelsOk && labels.None? ==> loadedUsers == {} && labeledFaceDescriptors == []
      ensures value != "" && modelsOk && labels.Some? ==>
                && loadedUsers == set l | l in labels.value
                && labeledFaceDescriptors == DescriptorsFor(Distinct(labels.value), detect)
      ensures recognitionActive == old(recognitionActive) && intervalId == old(intervalId)
      ensures streamAttached == old(streamAttached) && loadedDataListeners == old(loadedDataListeners)
      ensures runningTimers == old(runningTimers) && nextTimerId == old(nextTimerId) && actions == old(actions)
    {
      selectedEmpresaId := Some(value);
      if value == "" || !modelsOk {
        return;
      }
      LoadModels();
      LoadLabeledImages(labels, detect);
    }

    /** `startCamera`: a no-op while recognition is active or before the models are
        loaded; otherwise recognition is marked active before the camera is requested,
        and stays active if the camera fails. With a camera, its stream is attached and
        one more 'loadeddata' listener is added. */
    method StartCamera(cameraOk: bool)
      modifies this
      ensures old(recognitionActive) || !old(modelsLoaded) ==>
                recognitionActive == old(recognitionActive) && streamAttached == old(streamAttached)
                && loadedDataListeners == old(loadedDataListeners)
      ensures !old(recognitionActive) && old(modelsLoaded) ==>
                && recognitionActive
                && streamAttached == (old(streamAttached) || cameraOk)
                && loadedDataListeners == old(loadedDataListeners) + (if cameraOk then 1 else 0)
      ensures labeledFaceDescriptors == old(labeledFaceDescriptors) && modelsLoaded == old(modelsLoaded)
      ensures selectedEmpresaId == old(selectedEmpresaId) && loadedUsers == old(loadedUsers)
      ensures intervalId == old(intervalId) && runningTimers == old(runningTimers)
      ensures nextTimerId == old(nextTimerId) && actions == old(actions)
    {
      if recognitionActive || !modelsLoaded {
        return;
      }
      recognitionActive := true;
      if !cameraOk {
        return;
      }
      streamAttached := true;
      loadedDataListeners := loadedDataListeners + 1;
    }

    /** The video's 'loadeddata' event as written: every listener added so far runs and
        each starts its own interval, storing its id in `intervalId`, so only the last
        one stays reachable. */
    method OnVideoLoadedData()
      modifies this
      ensures streamAttached ==>
                && nextTimerId == old(nextTimerId) + loadedDataListeners
                && runningTimers == old(runningTimers) + TimerIds(old(nextTimerId), nextTimerId)
                && intervalId == (if loadedDataListeners == 0 then old(intervalId) else Some(nextTimerId - 1))
      ensures !streamAttached ==>
                nextTimerId == old(nextTimerId) && runningTimers == old(runningTimers) && intervalId == old(intervalId)
      ensures labeledFaceDescriptors == old(labeledFaceDescriptors) && modelsLoaded == old(modelsLoaded)
      ensures selectedEmpresaId == old(selectedEmpresaId) && loadedUsers == old(loadedUsers)
      ensures recognitionActive == old(recognitionActive) && streamAttached == old(streamAttached)
      ensures loadedDataListeners == old(loadedDataListeners) && actions == old(actions)
    {
      if !streamAttached {
        return;
      }
      for k := 0 to loadedDataListeners
        invariant nextTimerId == old(nextTimerId) + k
        invariant runningTimers == old(runningTimers) + TimerIds(old(nextTimerId), nextTimerId)
        invariant intervalId == (if k == 0 then old(intervalId) else Some(nextTimerId - 1))
        invariant labeledFaceDescriptors == old(labeledFaceDescriptors) && modelsLoaded == old(modelsLoaded)
        invariant selectedEmpresaId == old(selectedEmpresaId) && loadedUsers == old(loadedUsers)
        invariant recognitionActive == old(recognitionActive) && streamAttached == old(streamAttached)
        invariant loadedDataListeners == old(loadedDataListeners) && actions == old(actions)
      {
        intervalId := Some(nextTimerId);
        runningTimers := runningTimers + {nextTimerId};
        nextTimerId := nextTimerId + 1;
      }
    }

    /** The 'loadeddata' event with each listener clearing the interval it replaces:
        at most one interval runs afterwards, and it is the one `intervalId` names. */
    method OnVideoLoadedDataClearingPrevious()
      modifies this
      requires TimersTracked()
      ensures TimersTracked()
      ensures streamAttached && loadedDataListeners > 0 ==>
                nextTimerId == old(nextTimerId) + loadedDataListeners
                && runningTimers == {nextTimerId - 1} && intervalId == Some(nextTimerId - 1)
      ensures !streamAttached || loadedDataListeners == 0 ==>
                nextTimerId == old(nextTimerId) && runningTimers == old(runningTimers) && intervalId == old(intervalId)
      ensures labeledFaceDescriptors == old(labeledFaceDescriptors) && modelsLoaded == old(modelsLoaded)
      ensures selectedEmpresaId == old(selectedEmpresaId) && loadedUsers == old(loadedUsers)
      ensures recognitionActive == old(recognitionActive) && streamAttached == old(streamAttached)
      ensures loadedDataListeners == old(loadedDataListeners) && actions == old(actions)
    {
      if !streamAttached {
        return;
      }
      for k := 0 to loadedDataListeners
        invariant TimersTracked()
        invariant nextTimerId == old(nextTimerId) + k
        invariant k > 0 ==> runningTimers == {nextTimerId - 1} && intervalId == Some(nextTimerId - 1)
        invariant k == 0 ==> runningTimers == old(runningTimers) && intervalId == old(intervalId)
        invariant labeledFaceDescriptors == old(labeledFaceDescriptors) && modelsLoaded == old(modelsLoaded)
        invariant selectedEmpresaId == old(selectedEmpresaId) && loadedUsers == old(loadedUsers)
        invariant recognitionActive == old(recognitionActive) && streamAttached == old(streamAttached)
        invariant loadedDataListeners == old(loadedDataListeners) && actions == old(actions)
      {
        if intervalId.Some? {
          runningTimers := runningTimers - {intervalId.value};
        }
        intervalId := Some(nextTimerId);
        runningTimers := runningTimers + {nextTimerId};
        nextTimerId := nextTimerId + 1;
      }
    }

    /** `stopCamera`: the stream is released if one is attached, recognition is marked
        inactive and the interval `intervalId` names is cleared; `intervalId` itself
        keeps its value. */
    method StopCamera()
      modifies this
      ensures !recognitionActive && !streamAttached
      ensures runningTimers == (if old(intervalId).Some? then old(runningTimers) - {old(intervalId).value} else old(runningTimers))
      ensures old(TimersTracked()) ==> runningTimers == {} && TimersTracked()
      ensures intervalId == old(intervalId) && nextTimerId == old(nextTimerId)
      ensures labeledFaceDescriptors == old(labeledFaceDescriptors) && modelsLoaded == old(modelsLoaded)
      ensures selectedEmpresaId == old(selectedEmpresaId) && loadedUsers == old(loadedUsers)
      ensures loadedDataListeners == old(loadedDataListeners) && actions == old(actions)
    {
      if streamAttached {
        streamAttached := false;
      }
      recognitionActive := false;
      if intervalId.Some? {
        runningTimers := runningTimers - {intervalId.value};
      }
    }

    /** `handleRecognitionSuccess` for one recognized face. */
    method HandleRecognitionSuccess(nombre: string, photo: string, tipo: string)
      modifies this
      ensures actions == old(actions) + [RecognitionAction(nombre, photo, tipo, selectedEmpresaId)]
      ensures labeledFaceDescriptors == old(labeledFaceDescriptors) && modelsLoaded == old(modelsLoaded)
      ensures selectedEmpresaId == old(selectedEmpresaId) && loadedUsers == old(loadedUsers)
      ensures recognitionActive == old(recognitionActive) && intervalId == old(intervalId)
      ensures streamAttached == old(streamAttached) && loadedDataListeners == old(loadedDataListeners)
      ensures runningTimers == old(runningTimers) && nextTimerId == old(nextTimerId)
    {
      actions := actions + [RecognitionAction(nombre, photo, tipo, selectedEmpresaId)];
    }

    /** One interval tick: with no descriptors loaded nothing is recorded; otherwise the
        faces are handled in detection order, an unknown face by a failed-attempt report
        and a known one by `handleRecognitionSuccess`. */
    method Tick(results: seq<FaceResult>, tipo: string)
      modifies this
      ensures labeledFaceDescriptors == [] ==> actions == old(actions)
      ensures labeledFaceDescriptors != [] ==> actions == old(actions) + TickActions(results, tipo, selectedEmpresaId)
      ensures labeledFaceDescriptors == old(labeledFaceDescriptors) && modelsLoaded == old(modelsLoaded)
      ensures selectedEmpresaId == old(selectedEmpresaId) && loadedUsers == old(loadedUsers)
      ensures recognitionActive == old(recognitionActive) && intervalId == old(intervalId)
      ensures streamAttached == old(streamAttached) && loadedDataListeners == old(loadedDataListeners)
      ensures runningTimers == old(runningTimers) && nextTimerId == old(nextTimerId)
    {
      if |labeledFaceDescriptors| == 0 {
        return;
      }
      for i := 0 to |results|
        invariant actions == old(actions) + TickActions(results[..i], tipo, selectedEmpresaId)
        invariant labeledFaceDescriptors == old(labeledFaceDescriptors) && modelsLoaded == old(modelsLoaded)
        invariant selectedEmpresaId == old(selectedEmpresaId) && loadedUsers == old(loadedUsers)
        invariant recognitionActive == old(recognitionActive) && intervalId == old(intervalId)
        invariant streamAttached == old(streamAttached) && loadedDataListeners == old(loadedDataListeners)
        invariant runningTimers == old(runningTimers) && nextTimerId == old(nextTimerId)
      {
        var r := results[i];
        assert results[..i + 1][..i] == results[..i];
        if r.userLabel == UnknownLabel {
          actions := actions + [FailedAttemptAction(r.photo, selectedEmpresaId)];
        } else {
          HandleRecognitionSuccess(r.userLabel, r.photo, tipo);
        }
      }
      assert results[..|results|] == results;
    }
  }

  // ---------------------------------------------------------------------------
  // Start and stop twice
  // ---------------------------------------------------------------------------

  /** As written: start, video loaded, stop, start, video loaded, stop. The second load
      runs both listeners, so two intervals start and only the second one's id is kept;
      after the final stop an interval is still running. */
  method StartStopTwiceLeaksAnInterval() returns (stillRunning: set<nat>)
    ensures stillRunning == {1}
  {
    var s := new RecognitionSession();
    s.LoadModels();
    s.StartCamera(true);
    s.OnVideoLoadedData();
    assert s.runningTimers == {0};
    s.StopCamera();
    s.StartCamera(true);
    s.OnVideoLoadedData();
    assert s.runningTimers == {1, 2};
    s.StopCamera();
    stillRunning := s.runningTimers;
  }

  /** With each listener clearing the interval it replaces, the same sequence ends with
      no interval running. */
  method StartStopTwiceClearingPrevious() returns (stillRunning: set<nat>)
    ensures stillRunning == {}
  {
    var s := new RecognitionSession();
    s.LoadModels();
    s.StartCamera(true);
    s.OnVideoLoadedDataClearingPrevious();
    s.StopCamera();
    s.StartCamera(true);
    s.OnVideoLoadedDataClearingPrevious();
    s.StopCamera();
    stillRunning := s.runningTimers;
  }
}
