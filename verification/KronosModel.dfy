/** The loaded/unloaded state of the Kronos model and the two calls that change it. */
module KronosModel {

  datatype Model = Model(enabled: bool, loaded: bool, torch: bool)

  /** How far a load gets before it raises, if it does. */
  datatype LoadCourse =
    | Loads
    | FailsBeforeTorch    // an import or a missing path
    | FailsAfterTorch     // device, tokenizer or weights
    | FailsAnnouncing     // the predictor is installed, reporting it raises

  datatype Raised = Nothing | Discarded | LoadError

  function Unloaded(m: Model, cacheFails: bool): (Model, Raised) {
    if !m.loaded && !m.torch then (m, Nothing)
    else (m.(loaded := false), if m.torch && cacheFails then Discarded else Nothing)
  }

  function AfterLoad(m: Model, course: LoadCourse): (Model, Raised) {
    if !m.enabled then (m, LoadError)
    else if m.loaded then (m, Nothing)
    else match course
      case Loads => (m.(loaded := true, torch := true), Nothing)
      case FailsBeforeTorch => (m, LoadError)
      case FailsAfterTorch => (m.(torch := true), LoadError)
      case FailsAnnouncing => (m.(loaded := true, torch := true), LoadError)
  }

  class KronosRealSignal {
    const enabled: bool
    var predictor: bool
    var torch: bool
    var loadError: bool

    constructor (enabled: bool)
      ensures this.enabled == enabled && State() == Model(enabled, false, false)
    {
      this.enabled := enabled;
      predictor, torch, loadError := false, false, false;
    }

    function State(): Model
      reads this
    {
      Model(enabled, predictor, torch)
    }

    method Unload(cacheFails: bool) returns (r: Raised)
      modifies this
      ensures (State(), r) == Unloaded(old(State()), cacheFails)
      ensures !loadError
    {
      if !predictor && !torch {
        loadError := false;
        return Nothing;
      }
      predictor := false; // the step that cannot be undone
      loadError := false;
      if torch && cacheFails {
        return Discarded;
      }
      return Nothing;
    }

    method LoadPredictor(course: LoadCourse) returns (r: Raised)
      modifies this
      ensures (State(), r) == AfterLoad(old(State()), course)
      ensures loadError == (if old(enabled && !predictor) then r.LoadError? else old(loadError))
    {
      if !enabled {
        return LoadError;
      }
      if predictor {
        return Nothing;
      }
      if course.FailsBeforeTorch? {
        loadError := true;
        return LoadError;
      }
      torch := true;
      if course.FailsAfterTorch? {
        loadError := true;
        return LoadError;
      }
      predictor := true;
      loadError := course.FailsAnnouncing?;
      return if course.FailsAnnouncing? then LoadError else Nothing;
    }
  }
}
