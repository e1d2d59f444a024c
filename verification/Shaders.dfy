/** `GLShaderTypeFromFileName`: the shader stage chosen from the file-name suffix. */
module Shaders {
  import opened Wrappers

  datatype ShaderType = Vertex | Fragment | Geometry | TessControl | TessEvaluation | Compute

  /** The suffix each stage is recognised by. */
  function Suffix(t: ShaderType): string {
    match t
    case Vertex => ".vert"
    case Fragment => ".frag"
    case Geometry => ".geom"
    case TessControl => ".tesc"
    case TessEvaluation => ".tese"
    case Compute => ".comp"
  }

  /** The OpenGL enumerant of each stage. */
  function GLEnum(t: ShaderType): (e: int)
    ensures e != 0
  {
    match t
    case Vertex => 0x8B31
    case Fragment => 0x8B30
    case Geometry => 0x8DD9
    case TessControl => 0x8E88
    case TessEvaluation => 0x8E87
    case Compute => 0x91B9
  }

  /** `endsWith(s, part)`, taken as the suffix test its name describes. */
  predicate EndsWith(s: string, part: string) {
    |part| <= |s| && s[|s| - |part|..] == part
  }

  /** The order in which the suffixes are checked. */
  const CHECK_ORDER: seq<ShaderType> := [Vertex, Fragment, Geometry, TessControl, TessEvaluation, Compute]

  /** The first stage of `ts` whose suffix `fileName` carries. */
  function FirstStage(fileName: string, ts: seq<ShaderType>): (r: Option<ShaderType>)
    ensures r.Some? ==> r.value in ts && EndsWith(fileName, Suffix(r.value))
    ensures r.None? ==> forall i :: 0 <= i < |ts| ==> !EndsWith(fileName, Suffix(ts[i]))
  {
    if ts == [] then None
    else if EndsWith(fileName, Suffix(ts[0])) then Some(ts[0])
    else FirstStage(fileName, ts[1..])
  }

  /** The suffix tests in source order; a name with none of the suffixes fails the assertion and
      yields 0 when assertions are compiled out. */
  function ShaderTypeFromFileName(fileName: string): (e: int)
    ensures e == 0 || exists t :: EndsWith(fileName, Suffix(t)) && e == GLEnum(t)
  {
    match FirstStage(fileName, CHECK_ORDER)
    case None => 0
    case Some(t) => GLEnum(t)
  }

  /** The six suffixes have the same length and differ pairwise. */
  lemma SuffixesDistinct(t: ShaderType, u: ShaderType)
    ensures |Suffix(t)| == |Suffix(u)| == 5
    ensures t != u ==> Suffix(t) != Suffix(u)
  {
  }

  /** So a name ends in at most one of them ... */
  lemma AtMostOneSuffix(fileName: string, t: ShaderType, u: ShaderType)
    requires EndsWith(fileName, Suffix(t)) && EndsWith(fileName, Suffix(u))
    ensures t == u
  {
    SuffixesDistinct(t, u);
  }

  /** ... and the stage found does not depend on the order of the suffix tests: it is the stage
      whose suffix the name carries. */
  lemma ShaderTypeIsSuffixStage(fileName: string, t: ShaderType)
    requires EndsWith(fileName, Suffix(t))
    ensures ShaderTypeFromFileName(fileName) == GLEnum(t)
  {
    EveryStageChecked(t);
    FirstStageUnique(fileName, CHECK_ORDER, t);
  }

  /** A name without any of the six suffixes yields 0, and only such a name does. */
  lemma ShaderTypeUnknown(fileName: string)
    ensures ShaderTypeFromFileName(fileName) == 0 <==> forall t: ShaderType :: !EndsWith(fileName, Suffix(t))
  {
    match FirstStage(fileName, CHECK_ORDER)
    case None =>
      forall t: ShaderType
        ensures !EndsWith(fileName, Suffix(t))
      {
        EveryStageChecked(t);
        var i :| 0 <= i < |CHECK_ORDER| && CHECK_ORDER[i] == t;
      }
    case Some(t) =>
  }

  lemma EveryStageChecked(t: ShaderType)
    ensures t in CHECK_ORDER
  {
  }

  lemma {:induction false} FirstStageUnique(fileName: string, ts: seq<ShaderType>, t: ShaderType)
    requires t in ts && EndsWith(fileName, Suffix(t))
    ensures FirstStage(fileName, ts) == Some(t)
  {
    if EndsWith(fileName, Suffix(ts[0])) {
      AtMostOneSuffix(fileName, t, ts[0]);
    } else {
      FirstStageUnique(fileName, ts[1..], t);
    }
  }

  /** Distinct stages have distinct enumerants, so the result names the stage. */
  lemma GLEnumInjective(t: ShaderType, u: ShaderType)
    requires GLEnum(t) == GLEnum(u)
    ensures t == u
  {
  }
}
