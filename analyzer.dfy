/** The single-file log analyzer: the decision ladder that turns what the
    file system reports about one log file into an analysis result, and the
    renderer of the analyzer's error kinds.

    The file system is an input: an `Observation` records what each file
    system call returned for this path. The ladder consults the observations
    in a fixed order and stops at the first failure. */
module Analyzer {
  import opened Wrappers
  import opened Strings

  // ---------------------------------------------------------------------------
  // Error kinds
  // ---------------------------------------------------------------------------

  /** The three sentinel errors of the analyzer package, and any other error
      with its text. */
  datatype ErrorKind = FileNotFound | FileNotReadable | ParsingFailed | Other(text: string)

  /** The error's own text, as its `Error()` method returns it: a fixed,
      non-empty text for each sentinel, and the carried text otherwise. */
  function ErrorText(err: ErrorKind): (r: string)
    ensures !err.Other? ==> r != ""
    ensures err.Other? ==> r == err.text
  {
    match err
    case FileNotFound => "file not found"
    case FileNotReadable => "file not readable"
    case ParsingFailed => "parsing failed"
    case Other(t) => t
  }

  const UnknownErrorPrefix: string := "Erreur inconnue: "

  /** The user-facing French rendering of an error: a fixed sentence for each
      sentinel, and the unknown-error prefix followed by the text otherwise. */
  function HandleError(err: ErrorKind): (r: string)
    ensures "Erreur" <= r
    ensures err.Other? <==> UnknownErrorPrefix <= r
    ensures err.Other? ==> r[|UnknownErrorPrefix|..] == err.text
  {
    SentinelsNotUnknown();
    match err
    case FileNotFound => "Erreur: Fichier non trouvé"
    case FileNotReadable => "Erreur: Fichier non lisible"
    case ParsingFailed => "Erreur: Échec du parsing"
    case Other(t) => UnknownErrorPrefix + t
  }

  /** The sentinels' messages begin "Erreur:", so none of them begins with
      the unknown-error prefix "Erreur inconnue: ". */
  lemma SentinelsNotUnknown()
    ensures !(UnknownErrorPrefix <= "Erreur: Fichier non trouvé")
    ensures !(UnknownErrorPrefix <= "Erreur: Fichier non lisible")
    ensures !(UnknownErrorPrefix <= "Erreur: Échec du parsing")
  {
    assert "Erreur: Fichier non trouvé"[6] != UnknownErrorPrefix[6];
    assert "Erreur: Fichier non lisible"[6] != UnknownErrorPrefix[6];
    assert "Erreur: Échec du parsing"[6] != UnknownErrorPrefix[6];
  }

  /** Distinct errors are rendered as distinct messages. */
  lemma HandleErrorInjective(e1: ErrorKind, e2: ErrorKind)
    requires HandleError(e1) == HandleError(e2)
    ensures e1 == e2
  {
  }

  // ---------------------------------------------------------------------------
  // Observations and results
  // ---------------------------------------------------------------------------

  /** An error returned by the existence check, with whether the operating
      system classified it as "does not exist". */
  datatype StatError = StatError(text: string, notExist: bool)

  /** What the file system reported for one path, call by call: the existence
      check on the path, opening the path, the size query through the open
      handle, the size it gave, and the re-read of the whole file by path.
      Size and content come from different calls and are independent. */
  datatype Observation = Observation(
    statError: Option<StatError>,
    openError: Option<string>,
    metadataError: Option<string>,
    size: int,
    readError: Option<string>,
    content: string)

  /** The outcome for one log: its identifier and path, "OK" or "FAILED", a
      summary message, and the error details ("" when absent). */
  datatype AnalysisResult = AnalysisResult(
    logID: string,
    filePath: string,
    status: string,
    message: string,
    errorDetails: string)

  const StatusOK: string := "OK"
  const StatusFailed: string := "FAILED"

  const MsgNotFound: string := "Fichier introuvable."
  const MsgNotAccessible: string := "Fichier inaccessible."
  const MsgNoMetadata: string := "Impossible de lire les informations du fichier."
  const MsgEmpty: string := "Fichier vide - aucune analyse nécessaire."
  const MsgReadFailed: string := "Erreur lors de la lecture du fichier."
  const MsgParsingError: string := "Erreur de parsing détectée."
  const MsgSuccess: string := "Analyse terminée avec succès."

  const InvalidLineMarker: string := "INVALID_LINE"
  const CannotBeParsedMarker: string := "cannot be parsed"

  /** Prefix of the details of a parsing failure: the parsing sentinel's
      text followed by ": ". */
  function ParsingDetailsPrefix(): (r: string)
    ensures r == "parsing failed: "
  {
    ErrorText(ParsingFailed) + ": "
  }

  /** The existence check fails only when the error says "does not exist";
      any other error of that check is ignored, and no error is never
      "does not exist". */
  predicate NotFound(obs: Observation): (r: bool)
    ensures r ==> obs.statError.Some?
  {
    obs.statError.Some? && obs.statError.value.notExist
  }

  /** A line signals a parsing failure when either marker occurs somewhere in
      it; a line shorter than the shorter marker never does. */
  predicate HasMarker(line: string): (r: bool)
    ensures r <==> (exists i :: OccursAt(line, InvalidLineMarker, i)) ||
                   (exists i :: OccursAt(line, CannotBeParsedMarker, i))
    ensures r ==> |line| >= |InvalidLineMarker|
  {
    Contains(line, InvalidLineMarker) || Contains(line, CannotBeParsedMarker)
  }

  /** `lines[j]` is the first line that holds a marker. */
  ghost predicate IsFirstMarkerLine(lines: seq<string>, j: int)
  {
    0 <= j < |lines| && HasMarker(lines[j]) &&
    forall k :: 0 <= k < j ==> !HasMarker(lines[k])
  }

  /** The index of the first line holding a marker, or None when none does. */
  function FirstMarkerLine(lines: seq<string>): (r: Option<nat>)
    ensures r.Some? ==> IsFirstMarkerLine(lines, r.value)
    ensures r.None? ==> forall k :: 0 <= k < |lines| ==> !HasMarker(lines[k])
  {
    if |lines| == 0 then None
    else if HasMarker(lines[0]) then Some(0)
    else match FirstMarkerLine(lines[1..])
      case None => None
      case Some(j) => Some(j + 1)
  }

  /** The lines of a file's content, split at every newline: at least one
      line, none holding a newline, and together they rebuild the content. */
  function Lines(content: string): (lines: seq<string>)
    ensures |lines| >= 1
    ensures forall i :: 0 <= i < |lines| ==> '\n' !in lines[i]
    ensures Join(lines, '\n') == content
  {
    JoinSplit(content, '\n');
    Split(content, '\n')
  }

  /** The result the analyzer produces for a log, given what the file system
      reports: the first failing check decides, in the order existence, open,
      size query, (empty file: success), read, then the line scan. */
  function Analysis(logID: string, filePath: string, obs: Observation): (r: AnalysisResult)
    ensures r.logID == logID && r.filePath == filePath
    ensures r.status == StatusOK || r.status == StatusFailed
    ensures r.status == StatusOK ==> r.errorDetails == ""
  {
    if NotFound(obs) then
      AnalysisResult(logID, filePath, StatusFailed, MsgNotFound, obs.statError.value.text)
    else if obs.openError.Some? then
      AnalysisResult(logID, filePath, StatusFailed, MsgNotAccessible, obs.openError.value)
    else if obs.metadataError.Some? then
      AnalysisResult(logID, filePath, StatusFailed, MsgNoMetadata, obs.metadataError.value)
    else if obs.size == 0 then
      AnalysisResult(logID, filePath, StatusOK, MsgEmpty, "")
    else if obs.readError.Some? then
      AnalysisResult(logID, filePath, StatusFailed, MsgReadFailed, obs.readError.value)
    else
      var lines := Lines(obs.content);
      match FirstMarkerLine(lines)
      case Some(j) =>
        AnalysisResult(logID, filePath, StatusFailed, MsgParsingError, ParsingDetailsPrefix() + lines[j])
      case None =>
        AnalysisResult(logID, filePath, StatusOK, MsgSuccess, "")
  }

  /** Analyzes one log: fills in the result field by field, returning as soon
      as a check fails, and scans the lines in order for the first marker. */
  method AnalyzeLog(logID: string, filePath: string, obs: Observation) returns (result: AnalysisResult)
    ensures result == Analysis(logID, filePath, obs)
  {
    result := AnalysisResult(logID, filePath, "", "", "");

    if obs.statError.Some? && obs.statError.value.notExist {
      result := result.(status := StatusFailed, message := MsgNotFound,
                        errorDetails := obs.statError.value.text);
      return;
    }

    if obs.openError.Some? {
      result := result.(status := StatusFailed, message := MsgNotAccessible,
                        errorDetails := obs.openError.value);
      return;
    }

    if obs.metadataError.Some? {
      result := result.(status := StatusFailed, message := MsgNoMetadata,
                        errorDetails := obs.metadataError.value);
      return;
    }

    if obs.size == 0 {
      result := result.(status := StatusOK, message := MsgEmpty);
      return;
    }

    if obs.readError.Some? {
      result := result.(status := StatusFailed, message := MsgReadFailed,
                        errorDetails := obs.readError.value);
      return;
    }

    var lines := Split(obs.content, '\n');
    for i := 0 to |lines|
      invariant forall k :: 0 <= k < i ==> !HasMarker(lines[k])
    {
      var line := lines[i];
      if Contains(line, InvalidLineMarker) || Contains(line, CannotBeParsedMarker) {
        result := result.(status := StatusFailed, message := MsgParsingError,
                          errorDetails := ErrorText(ParsingFailed) + ": " + line);
        assert IsFirstMarkerLine(lines, i);
        return;
      }
    }

    result := result.(status := StatusOK, message := MsgSuccess);
  }

  // ---------------------------------------------------------------------------
  // Properties of the ladder
  // ---------------------------------------------------------------------------

  /** The I/O checks fire in a fixed order and the first that applies decides
      the result, with its own message and the error's text as details. */
  lemma FailureOrder(logID: string, filePath: string, obs: Observation)
    ensures NotFound(obs) ==>
      Analysis(logID, filePath, obs) ==
      AnalysisResult(logID, filePath, StatusFailed, MsgNotFound, obs.statError.value.text)
    ensures !NotFound(obs) && obs.openError.Some? ==>
      Analysis(logID, filePath, obs) ==
      AnalysisResult(logID, filePath, StatusFailed, MsgNotAccessible, obs.openError.value)
    ensures !NotFound(obs) && obs.openError.None? && obs.metadataError.Some? ==>
      Analysis(logID, filePath, obs) ==
      AnalysisResult(logID, filePath, StatusFailed, MsgNoMetadata, obs.metadataError.value)
    ensures !NotFound(obs) && obs.openError.None? && obs.metadataError.None? &&
            obs.size != 0 && obs.readError.Some? ==>
      Analysis(logID, filePath, obs) ==
      AnalysisResult(logID, filePath, StatusFailed, MsgReadFailed, obs.readError.value)
  {
  }

  /** An existence-check error other than "does not exist" changes nothing:
      the analysis goes on as if that check had succeeded. */
  lemma OtherStatErrorIgnored(logID: string, filePath: string, obs: Observation)
    requires obs.statError.Some? && !obs.statError.value.notExist
    ensures Analysis(logID, filePath, obs) == Analysis(logID, filePath, obs.(statError := None))
  {
  }

  /** An empty file that passed the first three checks is a success, and its
      content and read error are never consulted. */
  lemma EmptyFileSkipsContent(logID: string, filePath: string, obs: Observation,
                              content: string, readError: Option<string>)
    requires !NotFound(obs) && obs.openError.None? && obs.metadataError.None?
    requires obs.size == 0
    ensures Analysis(logID, filePath, obs) ==
            AnalysisResult(logID, filePath, StatusOK, MsgEmpty, "")
    ensures Analysis(logID, filePath, obs.(content := content, readError := readError)) ==
            Analysis(logID, filePath, obs)
  {
  }

  /** Neither marker spans a newline. */
  lemma MarkersHaveNoNewline()
    ensures '\n' !in InvalidLineMarker && '\n' !in CannotBeParsedMarker
  {
  }

  /** Some line of the content holds a marker exactly when the whole content
      does. */
  lemma MarkerInSomeLine(content: string)
    ensures HasMarker(content) <==>
            exists j :: 0 <= j < |Lines(content)| && HasMarker(Lines(content)[j])
  {
    var lines := Lines(content);
    MarkersHaveNoNewline();
    ContainsInSomePiece(content, '\n', InvalidLineMarker);
    ContainsInSomePiece(content, '\n', CannotBeParsedMarker);
    if Contains(content, InvalidLineMarker) {
      var j :| 0 <= j < |lines| && Contains(lines[j], InvalidLineMarker);
      assert HasMarker(lines[j]);
    } else if Contains(content, CannotBeParsedMarker) {
      var j :| 0 <= j < |lines| && Contains(lines[j], CannotBeParsedMarker);
      assert HasMarker(lines[j]);
    }
  }

  /** Once every I/O check has passed on a non-empty file, the result is a
      parsing failure exactly when the content holds a marker anywhere; it
      then reports the first such line, which holds no newline, and otherwise
      it is a success. */
  lemma ContentScanOutcome(logID: string, filePath: string, obs: Observation)
    requires !NotFound(obs) && obs.openError.None? && obs.metadataError.None?
    requires obs.size != 0 && obs.readError.None?
    ensures var r := Analysis(logID, filePath, obs);
      && (r.status == StatusFailed <==> HasMarker(obs.content))
      && (HasMarker(obs.content) ==>
            r.message == MsgParsingError &&
            exists j :: IsFirstMarkerLine(Lines(obs.content), j) &&
                        '\n' !in Lines(obs.content)[j] &&
                        r.errorDetails == "parsing failed: " + Lines(obs.content)[j])
      && (!HasMarker(obs.content) ==>
            r == AnalysisResult(logID, filePath, StatusOK, MsgSuccess, ""))
  {
    MarkerInSomeLine(obs.content);
  }
}
