/**
 * The one-page web flow decides which of its four screens to serve from the
 * request method and three form fields, and hands the screen the fields it
 * needs.
 */
module Short {
  import opened Wrappers

  /** The screens of the one-page flow, in declaration order. */
  datatype Phase = RequestPhase | RespondGetPhase | RespondPostPhase | ReceivePhase

  /** The numeric value of each constant, counted from zero. */
  function PhaseOrdinal(p: Phase): (n: nat)
    ensures n < 4
    ensures n == 0 <==> p == RequestPhase
  {
    match p
    case RequestPhase => 0
    case RespondGetPhase => 1
    case RespondPostPhase => 2
    case ReceivePhase => 3
  }

  lemma PhaseOrdinalInjective(p: Phase, q: Phase)
    ensures PhaseOrdinal(p) == PhaseOrdinal(q) <==> p == q
  {
  }

  /** Submitted form values: every value given for each field name, in order. */
  type Form = map<string, seq<string>>

  /** The first value given for `key`, or the empty string when there is none. */
  function FormValue(form: Form, key: string): (v: string)
    ensures key !in form || form[key] == [] ==> v == ""
    ensures key in form && form[key] != [] ==> v == form[key][0]
  {
    if key in form && form[key] != [] then form[key][0] else ""
  }

  const PublicField := "public"
  const PrivateField := "private"
  const DataField := "data"
  const MethodGet := "GET"

  /** The screen to serve and the fields passed to it; `None` plays the part of the nil map. */
  datatype Detection = Detection(phase: Phase, params: Option<map<string, string>>)

  /** The fields the screen for each phase receives. */
  function Needs(p: Phase): set<string>
  {
    match p
    case RequestPhase => {}
    case RespondGetPhase => {PublicField}
    case RespondPostPhase => {PublicField, DataField}
    case ReceivePhase => {PrivateField, DataField}
  }

  /**
   * `detectPhase`: a GET is a respond screen when it names a public request, the
   * request screen otherwise; any other method is a respond submission when it
   * carries a public request and data, a receive submission when it carries a
   * private request and data, and the request screen otherwise.
   */
  function DetectPhase(verb: string, form: Form): (d: Detection)
    ensures d.params.None? <==> d.phase == RequestPhase
    ensures d.params.Some? ==> d.params.value.Keys == Needs(d.phase)
    ensures d.params.Some? ==> forall k :: k in d.params.value ==> d.params.value[k] == FormValue(form, k) != ""
    ensures verb == MethodGet ==>
              (d.phase == RespondGetPhase <==> FormValue(form, PublicField) != "")
    ensures verb == MethodGet ==> d.phase == RequestPhase || d.phase == RespondGetPhase
    ensures verb != MethodGet ==>
              (d.phase == RespondPostPhase <==> FormValue(form, PublicField) != "" && FormValue(form, DataField) != "")
    ensures verb != MethodGet ==>
              (d.phase == ReceivePhase <==>
                 !(FormValue(form, PublicField) != "" && FormValue(form, DataField) != "")
                 && FormValue(form, PrivateField) != "" && FormValue(form, DataField) != "")
    ensures verb != MethodGet ==> d.phase != RespondGetPhase
  {
    var public := FormValue(form, PublicField);
    var private := FormValue(form, PrivateField);
    var data := FormValue(form, DataField);
    if verb == MethodGet then
      if public == "" then Detection(RequestPhase, None)
      else Detection(RespondGetPhase, Some(map[PublicField := public]))
    else if public != "" && data != "" then
      Detection(RespondPostPhase, Some(map[PublicField := public, DataField := data]))
    else if private != "" && data != "" then
      Detection(ReceivePhase, Some(map[PrivateField := private, DataField := data]))
    else
      Detection(RequestPhase, None)
  }

  /** A form holding exactly the given fields, one value each. */
  function AsForm(params: map<string, string>): (f: Form)
    ensures f.Keys == params.Keys
    ensures forall k :: k in params ==> FormValue(f, k) == params[k]
  {
    map k | k in params :: [params[k]]
  }

  /**
   * The fields handed to a screen are enough to choose it again: detecting the
   * phase from a form holding only those fields gives the same answer.
   */
  lemma DetectionStable(verb: string, form: Form)
    ensures var d := DetectPhase(verb, form);
            DetectPhase(verb, AsForm(if d.params.Some? then d.params.value else map[])) == d
  {
    var d := DetectPhase(verb, form);
    var params := if d.params.Some? then d.params.value else map[];
    var f := AsForm(params);
    assert PublicField != DataField && PublicField != PrivateField && PrivateField != DataField;
    assert FormValue(f, PublicField) == if PublicField in params then params[PublicField] else "";
    assert FormValue(f, PrivateField) == if PrivateField in params then params[PrivateField] else "";
    assert FormValue(f, DataField) == if DataField in params then params[DataField] else "";
  }
}
