/** `DetectLanguage`: the class that wraps the CLD2 engine. It refuses to be built without the
    engine, optionally normalises the text, turns the engine's answer into at most one
    `DetectionResult` and ranks the list with the comparator of `Ranking`. */
module Detection {
  import opened Wrappers
  import opened Ranking
  import opened Normalization

  /** The `$text` argument: PHP `null` or a string. */
  datatype TextArg = Null | Str(s: string)

  /** PHP's `!$text` on a string or `null`: `null`, `""` and `"0"` are falsy. */
  predicate IsFalsy(t: TextArg)
  {
    t.Null? || t.s == "" || t.s == "0"
  }

  /** An array returned by the engine, by its four keys. */
  datatype RawMatch = RawMatch(
    languageCode: string,
    languageName: string,
    isReliable: bool,
    languageProbability: int)

  /** What the engine's `detect` can hand back, as far as the code distinguishes it: a falsy value
      (`null`, `false`, an empty array), a truthy value that is not an array, or an array. */
  datatype Response = Falsy | NotArray | Match(raw: RawMatch)

  /** The exception the constructor throws. */
  datatype ConstructionError = ModuleCld2NotFound(message: string)

  const ExtensionMissingMessage: string := "CLD2 extension not installed."

  /** The `DetectionResult` built from an array answer: code, name and reliability copied as they
      are, and the percentage kept as the probability. */
  function FromMatch(m: RawMatch): DetectionResult
  {
    DetectionResult(m.languageCode, m.languageName, m.isReliable, m.languageProbability)
  }

  /** The list `detect` builds before sorting: one result for an array answer, none otherwise. */
  function Candidates(response: Response): seq<DetectionResult>
  {
    if response.Match? then [FromMatch(response.raw)] else []
  }

  /** The modelled way to obtain a `DetectLanguage` is `Create`, which stands for PHP's throwing
      `__construct`; the Dafny constructor is the part of it that runs once the extension check
      has passed. */
  class DetectLanguage {
    /** The CLD2 detector held in `$cld2Detector`, as the answer it gives for each text. */
    const engine: string -> Response
    /** The two regular-expression stages of `normalizeText` that are not modelled character by
        character. */
    const pcre: PcreStages

    constructor (engine: string -> Response, pcre: PcreStages)
      ensures this.engine == engine && this.pcre == pcre
    {
      this.engine := engine;
      this.pcre := pcre;
    }

    /** `new DetectLanguage()`: succeeds exactly when the CLD2 extension is loaded and otherwise
        throws `ModuleCld2NotFound` with the extension's message. */
    static method Create(extensionLoaded: bool, engine: string -> Response, pcre: PcreStages)
      returns (r: Result<DetectLanguage, ConstructionError>)
      ensures r.Success? <==> extensionLoaded
      ensures r.Failure? ==> r.error == ModuleCld2NotFound(ExtensionMissingMessage)
      ensures r.Success? ==> fresh(r.value) && r.value.engine == engine && r.value.pcre == pcre
    {
      if extensionLoaded {
        var d := new DetectLanguage(engine, pcre);
        r := Success(d);
      } else {
        r := Failure(ModuleCld2NotFound(ExtensionMissingMessage));
      }
    }

    /** The text `detect` hands to the engine, or `None` when it returns before asking. */
    function EngineInput(text: TextArg, normalize: bool): Option<string>
    {
      if IsFalsy(text) then None
      else if normalize then Some(NormalizeText(text.s, pcre))
      else Some(text.s)
    }

    /** What `detect` answers: the candidates for the engine's answer, or nothing for falsy text. */
    function Expected(text: TextArg, normalize: bool): seq<DetectionResult>
    {
      var input := EngineInput(text, normalize);
      if input.None? then [] else Candidates(engine(input.value))
    }

    /** The step of `detect` that replaces the text by its normalised form when asked to. */
    method PrepareText(text: string, normalize: bool) returns (input: string)
      ensures normalize ==> input == NormalizeText(text, pcre)
      ensures !normalize ==> input == text
    {
      input := text;
      if normalize {
        input := NormalizeText(input, pcre);
      }
    }

    /** The rest of `detect` once the text is settled: ask the engine, build the list of
        candidates and rank it with `usort`. */
    method AskAndRank(input: string) returns (results: seq<DetectionResult>)
      ensures results == Candidates(engine(input))
      ensures Sorted(results)
    {
      var built: seq<DetectionResult> := [];
      var response := engine(input);
      if response.Match? {
        var m := response.raw;
        built := built + [FromMatch(m)];
      }
      assert built == Candidates(response);
      results := Rank(built);
      ShortListPermutationIsItself(built, results);
    }

    /** `detect($text, $normalize = true)`. `query` records the text the engine was asked about. */
    method Detect(text: TextArg, normalize: bool := true)
      returns (results: seq<DetectionResult>, ghost query: Option<string>)
      ensures query == EngineInput(text, normalize)
      ensures results == Expected(text, normalize)
      ensures Sorted(results)
      ensures IsFalsy(text) <==> query.None?
      ensures IsFalsy(text) ==> results == []
      ensures !IsFalsy(text) && !normalize ==> query == Some(text.s)
      ensures !IsFalsy(text) && normalize ==> query == Some(NormalizeText(text.s, pcre))
      ensures |results| <= 1
      ensures results != [] <==> query.Some? && engine(query.value).Match?
      ensures results != [] ==> results[0] == FromMatch(engine(query.value).raw)
    {
      if IsFalsy(text) {
        return [], None;
      }
      var input := PrepareText(text.s, normalize);
      query := Some(input);
      results := AskAndRank(input);
    }

    /** `detectOnlyMostProbably($text, $normalize = true)`: the head of `detect`'s answer, or `null`. */
    method DetectOnlyMostProbably(text: TextArg, normalize: bool := true)
      returns (best: Option<DetectionResult>, ghost query: Option<string>)
      ensures query == EngineInput(text, normalize)
      ensures best == (if Expected(text, normalize) == [] then None else Some(Expected(text, normalize)[0]))
      ensures best.Some? <==> query.Some? && engine(query.value).Match?
      ensures best.Some? ==> best.value == FromMatch(engine(query.value).raw)
      ensures IsFalsy(text) ==> best == None
    {
      var results;
      results, query := Detect(text, normalize);
      best := if results != [] then Some(results[0]) else None;
    }
  }
}
