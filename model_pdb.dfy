/** The structure-file side of an AlphaFold model: a one-pass parser over the
    whitespace-split records of a PDB-like file (DBREF, SEQRES and ATOM
    records; every other record is skipped) and the 1-based getters over what
    it collects. */
module ModelPdb {
  import opened Wrappers

  /** One line of the file, already split on whitespace. */
  type Line = seq<string>

  /** The numeric conversions Python's `int(...)` and `float(...)` apply to a
      field; `None` where the conversion raises ValueError. */
  datatype Conversions = Conversions(toInt: string -> Option<int>, toReal: string -> Option<real>)

  /** A CA atom's coordinates, kept as the raw field texts. */
  datatype Coordinate = Coordinate(x: string, y: string, z: string)

  /** The database reference record: UniProt accession and entry name. */
  datatype DbRef = DbRef(uniprot: string, name: string)

  datatype ParseError =
    | MissingField                                          // IndexError: a field read past the end of a line
    | BadNumber(field: string)                              // ValueError: int() or float() rejected a field
    | UnknownResidue(code: string)                          // KeyError: an upper-cased SEQRES code outside the table
    | LengthMismatch(sequenceLength: nat, plddtCount: nat)  // RuntimeError: the final consistency check

  // ---------------------------------------------------------------------
  // Residue names

  /** The fixed table from three-letter amino-acid codes to one-letter codes. */
  const ThreeToOne: map<string, char> := map[
    "VAL" := 'V', "ILE" := 'I', "LEU" := 'L', "GLU" := 'E', "GLN" := 'Q',
    "ASP" := 'D', "ASN" := 'N', "HIS" := 'H', "TRP" := 'W', "PHE" := 'F', "TYR" := 'Y',
    "ARG" := 'R', "LYS" := 'K', "SER" := 'S', "THR" := 'T', "MET" := 'M', "ALA" := 'A',
    "GLY" := 'G', "PRO" := 'P', "CYS" := 'C'
  ]

  /** The twenty one-letter codes the table produces. */
  const OneLetterCodes: set<char> := {'A', 'C', 'D', 'E', 'F', 'G', 'H', 'I', 'K', 'L',
                                      'M', 'N', 'P', 'Q', 'R', 'S', 'T', 'V', 'W', 'Y'}

  /** ASCII upper-casing of one character, as `str.upper` does on ASCII text. */
  function UpperChar(c: char): char
  {
    if 'a' <= c <= 'z' then (c as int - 32) as char else c
  }

  function Upper(s: string): string
  {
    seq(|s|, k requires 0 <= k < |s| => UpperChar(s[k]))
  }

  predicate Known(code: string)
  {
    Upper(code) in ThreeToOne
  }

  /** The table read backwards: each one-letter code's three-letter name. */
  const OneToThree: map<char, string> := map[
    'V' := "VAL", 'I' := "ILE", 'L' := "LEU", 'E' := "GLU", 'Q' := "GLN",
    'D' := "ASP", 'N' := "ASN", 'H' := "HIS", 'W' := "TRP", 'F' := "PHE", 'Y' := "TYR",
    'R' := "ARG", 'K' := "LYS", 'S' := "SER", 'T' := "THR", 'M' := "MET", 'A' := "ALA",
    'G' := "GLY", 'P' := "PRO", 'C' := "CYS"
  ]

  function OneLetter(code: string): (c: char)
    requires Known(code)
    ensures c in OneLetterCodes
  {
    ThreeToOne[Upper(code)]
  }

  /** Maps SEQRES residue codes, in order, through the table; the first code
      whose upper-cased form is not in the table is reported, as the KeyError
      of `AA_DICT_LTS[residue.upper()]` would be. */
  function Translate(codes: seq<string>): (r: Result<seq<char>, string>)
    ensures r.Ok? <==> forall k :: 0 <= k < |codes| ==> Known(codes[k])
    ensures r.Ok? ==> |r.value| == |codes| &&
                      forall k :: 0 <= k < |codes| ==> r.value[k] == OneLetter(codes[k])
    ensures r.Err? ==> exists k :: 0 <= k < |codes| && !Known(codes[k]) &&
                                   (forall j :: 0 <= j < k ==> Known(codes[j])) &&
                                   r.error == Upper(codes[k])
  {
    if codes == [] then Ok([])
    else if !Known(codes[0]) then Err(Upper(codes[0]))
    else match Translate(codes[1..])
      case Err(code) =>
        assert forall j :: 1 <= j < |codes| ==> codes[j] == codes[1..][j - 1];
        Err(code)
      case Ok(rest) => Ok([OneLetter(codes[0])] + rest)
  }

  /** Translating a concatenation concatenates the translations. */
  lemma TranslateAppend(a: seq<string>, b: seq<string>)
    requires Translate(a).Ok? && Translate(b).Ok?
    ensures Translate(a + b) == Ok(Translate(a).value + Translate(b).value)
  {
    KnownAppend(a, b);
    var t := Translate(a + b).value;
    var u := Translate(a).value + Translate(b).value;
    forall k | 0 <= k < |t| ensures t[k] == u[k] {
      LetterAppend(a, b, k);
    }
    assert t == u;
  }

  lemma KnownAppend(a: seq<string>, b: seq<string>)
    requires Translate(a).Ok? && Translate(b).Ok?
    ensures Translate(a + b).Ok? && |Translate(a + b).value| == |a| + |b|
  {
    var ab := a + b;
    forall k | 0 <= k < |ab| ensures Known(ab[k]) {
      if k < |a| { assert ab[k] == a[k]; } else { assert ab[k] == b[k - |a|]; }
    }
  }

  lemma LetterAppend(a: seq<string>, b: seq<string>, k: nat)
    requires Translate(a).Ok? && Translate(b).Ok? && Translate(a + b).Ok? && k < |a| + |b|
    ensures Translate(a + b).value[k] == (Translate(a).value + Translate(b).value)[k]
  {
    var ab := a + b;
    if k < |a| { assert ab[k] == a[k]; } else { assert ab[k] == b[k - |a|]; }
  }

  /** The method form of the SEQRES loop: appends one letter per code and
      stops at the first unknown code. */
  method TranslateResidues(codes: seq<string>) returns (r: Result<seq<char>, string>)
    ensures r == Translate(codes)
  {
    var letters: seq<char> := [];
    var j := 0;
    while j < |codes|
      invariant 0 <= j <= |codes|
      invariant |letters| == j
      invariant forall k :: 0 <= k < j ==> Known(codes[k]) && letters[k] == OneLetter(codes[k])
    {
      var key := Upper(codes[j]);
      if key !in ThreeToOne {
        ghost var t := Translate(codes);
        assert t.Err? && !Known(codes[j]);
        ghost var w :| 0 <= w < |codes| && !Known(codes[w]) &&
                       (forall i :: 0 <= i < w ==> Known(codes[i])) && t.error == Upper(codes[w]);
        assert w == j;
        return Err(key);
      }
      letters := letters + [ThreeToOne[key]];
      j := j + 1;
    }
    assert Translate(codes).value == letters;
    r := Ok(letters);
  }

  // ---------------------------------------------------------------------
  // The parse, as a fold of one step per line

  /** What the parser has collected so far (the locals of `parse_model`). */
  datatype ParseState = ParseState(
    dbref: Option<DbRef>,
    sequence: seq<char>,
    plddt: seq<real>,
    coordinates: map<int, Coordinate>,
    currentResNum: int)

  const Initial: ParseState := ParseState(None, [], [], map[], 0)

  predicate HasTag(line: Line, tag: string)
  {
    |line| > 0 && line[0] == tag
  }

  /** The residue codes of a SEQRES line: every field after the fourth
      (Python's `LINE_FIELDS[4::]`, empty on a short line). */
  function ResidueCodes(line: Line): seq<string>
  {
    if |line| >= 4 then line[4..] else []
  }

  /** An ATOM record: appends the score of field 11 when the residue number
      exceeds the counter (and bumps the counter by one), then records the
      coordinates of a CA atom under its residue number. */
  function AtomStep(s: ParseState, line: Line, conv: Conversions): (r: Result<ParseState, ParseError>)
    ensures r.Ok? ==> r.value.dbref == s.dbref && r.value.sequence == s.sequence
    ensures r.Ok? ==> s.plddt <= r.value.plddt && |r.value.plddt| <= |s.plddt| + 1
    ensures r.Ok? ==> r.value.currentResNum - s.currentResNum == |r.value.plddt| - |s.plddt|
    ensures r.Ok? ==> s.coordinates.Keys <= r.value.coordinates.Keys
    ensures |line| < 6 ==> r == Err(MissingField)
  {
    if |line| < 6 then Err(MissingField)
    else match conv.toInt(line[5])
      case None => Err(BadNumber(line[5]))
      case Some(resNum) =>
        var scored :=
          if resNum <= s.currentResNum then Ok(s)
          else if |line| < 11 then Err(MissingField)
          else match conv.toReal(line[10])
            case None => Err(BadNumber(line[10]))
            case Some(score) => Ok(s.(plddt := s.plddt + [score], currentResNum := s.currentResNum + 1));
        match scored
        case Err(e) => Err(e)
        case Ok(s1) =>
          if line[2] != "CA" then Ok(s1)
          else if |line| < 9 then Err(MissingField)
          else Ok(s1.(coordinates := s1.coordinates[resNum := Coordinate(line[6], line[7], line[8])]))
  }

  /** One iteration of the line loop, dispatching on the first field. */
  function Step(s: ParseState, line: Line, conv: Conversions): (r: Result<ParseState, ParseError>)
    ensures r.Ok? ==> s.sequence <= r.value.sequence
    ensures r.Ok? ==> s.plddt <= r.value.plddt && |r.value.plddt| <= |s.plddt| + 1
    ensures r.Ok? ==> r.value.currentResNum - s.currentResNum == |r.value.plddt| - |s.plddt|
    ensures r.Ok? && !HasTag(line, "ATOM") ==> r.value.plddt == s.plddt && r.value.coordinates == s.coordinates
    ensures HasTag(line, "SEQRES") && Translate(ResidueCodes(line)).Err? ==>
              r == Err(UnknownResidue(Translate(ResidueCodes(line)).error))
  {
    if |line| == 0 then Err(MissingField)
    else if line[0] == "DBREF" then
      if |line| < 8 then Err(MissingField) else Ok(s.(dbref := Some(DbRef(line[6], line[7]))))
    else if line[0] == "SEQRES" then
      match Translate(ResidueCodes(line))
      case Err(code) => Err(UnknownResidue(code))
      case Ok(letters) => Ok(s.(sequence := s.sequence + letters))
    else if line[0] == "ATOM" then AtomStep(s, line, conv)
    else Ok(s)
  }

  /** The state after the loop has run over `lines`, or the first error.
      The counter `currentResNum` always equals the number of pLDDT values:
      every append is paired with one increment. */
  function ParseLines(lines: seq<Line>, conv: Conversions): (r: Result<ParseState, ParseError>)
    ensures r.Ok? ==> r.value.currentResNum == |r.value.plddt|
    decreases |lines|
  {
    if lines == [] then Ok(Initial)
    else match ParseLines(lines[..|lines| - 1], conv)
      case Err(e) => Err(e)
      case Ok(s) => Step(s, lines[|lines| - 1], conv)
  }

  /** A successful loop is its last step applied to the state before it. */
  lemma ParseLinesLast(lines: seq<Line>, conv: Conversions)
    requires lines != [] && ParseLines(lines, conv).Ok?
    ensures ParseLines(lines[..|lines| - 1], conv).Ok?
    ensures Step(ParseLines(lines[..|lines| - 1], conv).value, lines[|lines| - 1], conv) == ParseLines(lines, conv)
  {
  }

  /** Two line lists with the same outcome before the same last line have
      the same outcome. */
  lemma ParseLinesCongruent(x: seq<Line>, y: seq<Line>, conv: Conversions)
    requires x != [] && y != [] && x[|x| - 1] == y[|y| - 1]
    requires ParseLines(x[..|x| - 1], conv) == ParseLines(y[..|y| - 1], conv)
    ensures ParseLines(x, conv) == ParseLines(y, conv)
  {
  }

  /** A record that is not DBREF, SEQRES or ATOM changes nothing. */
  lemma StepOther(s: ParseState, line: Line, conv: Conversions)
    requires |line| > 0 && line[0] != "DBREF" && line[0] != "SEQRES" && line[0] != "ATOM"
    ensures Step(s, line, conv) == Ok(s)
  {
  }

  /** A successfully parsed structure: the attributes `ModelPDB.__init__` sets. */
  datatype Pdb = Pdb(
    dbref: Option<DbRef>,
    length: nat,
    sequence: seq<char>,
    plddt: seq<real>,
    coordinates: map<int, Coordinate>)
  {
    predicate Valid()
    {
      length == |sequence| && length == |plddt|
    }

    /** `get_plddt`: the score of a 1-based residue position. */
    function Plddt(residue: int): (p: real)
      requires Valid() && 1 <= residue <= length
      ensures p in plddt
    {
      plddt[residue - 1]
    }

    /** `get_Ca_coord`: the CA coordinates recorded for a residue number, or
        `None` where the dictionary lookup raises KeyError. */
    function CaCoordinate(residue: int): (c: Option<Coordinate>)
      ensures c.Some? <==> residue in coordinates
      ensures c.Some? ==> c.value in coordinates.Values
    {
      if residue in coordinates then Some(coordinates[residue]) else None
    }

    /** The tuple `get_residue` builds for one position under the two flags. */
    function Entry(position: int, withCoordinates: bool, withPlddt: bool): Option<ResidueEntry>
      requires Valid() && 1 <= position <= length
    {
      var residue := sequence[position - 1];
      if withCoordinates && position !in coordinates then None
      else if withCoordinates && withPlddt then Some(Full(residue, coordinates[position], plddt[position - 1]))
      else if withCoordinates then Some(WithCoordinate(position, residue, coordinates[position]))
      else if withPlddt then Some(WithPlddt(position, residue, plddt[position - 1]))
      else Some(Plain(position, residue))
    }

    /** Entry e is what `get_residue` reports for `position`: its residue
        letter, its position unless both flags are set, its CA coordinates
        exactly when asked, its score exactly when asked. */
    predicate Describes(e: ResidueEntry, position: int, withCoordinates: bool, withPlddt: bool)
      requires Valid() && 1 <= position <= length
    {
      && e.residue == sequence[position - 1]
      && (e.Full? <==> withCoordinates && withPlddt)
      && (e.WithCoordinate? <==> withCoordinates && !withPlddt)
      && (e.WithPlddt? <==> !withCoordinates && withPlddt)
      && (!e.Full? ==> e.position == position)
      && (e.Full? || e.WithCoordinate? ==> position in coordinates && e.coordinate == coordinates[position])
      && (e.Full? || e.WithPlddt? ==> e.score == plddt[position - 1])
    }

    /** `get_residue`: one entry per requested position, in request order
        with duplicates kept; with coordinates requested, the first position
        without a CA record fails (KeyError) and is reported. */
    function GetResidue(positions: seq<int>, withCoordinates: bool, withPlddt: bool): (r: Result<seq<ResidueEntry>, int>)
      requires Valid()
      requires forall k :: 0 <= k < |positions| ==> 1 <= positions[k] <= length
      ensures r.Ok? <==> (withCoordinates ==> forall k :: 0 <= k < |positions| ==> positions[k] in coordinates)
      ensures r.Ok? ==> |r.value| == |positions| &&
                        forall k :: 0 <= k < |positions| ==>
                          Describes(r.value[k], positions[k], withCoordinates, withPlddt)
      ensures r.Err? ==> exists k :: 0 <= k < |positions| && positions[k] == r.error && r.error !in coordinates &&
                                     forall j :: 0 <= j < k ==> positions[j] in coordinates
    {
      if positions == [] then Ok([])
      else match Entry(positions[0], withCoordinates, withPlddt)
        case None => Err(positions[0])
        case Some(e) =>
          match GetResidue(positions[1..], withCoordinates, withPlddt)
          case Err(missing) =>
            assert forall j :: 1 <= j < |positions| ==> positions[j] == positions[1..][j - 1];
            Err(missing)
          case Ok(rest) => Ok([e] + rest)
    }
  }

  /** The tuples of `get_residue`; the one with both flags has no position. */
  datatype ResidueEntry =
    | Plain(position: int, residue: char)
    | WithCoordinate(position: int, residue: char, coordinate: Coordinate)
    | WithPlddt(position: int, residue: char, score: real)
    | Full(residue: char, coordinate: Coordinate, score: real)

  /** `parse_model`: the line loop followed by the length check. */
  function Parse(lines: seq<Line>, conv: Conversions): (r: Result<Pdb, ParseError>)
    ensures r.Ok? ==> r.value.Valid()
    ensures r.Ok? <==> ParseLines(lines, conv).Ok? &&
                       |ParseLines(lines, conv).value.plddt| == |ParseLines(lines, conv).value.sequence|
    ensures ParseLines(lines, conv).Err? ==> r == Err(ParseLines(lines, conv).error)
    ensures r.Ok? ==> var s := ParseLines(lines, conv).value;
                      r.value == Pdb(s.dbref, |s.sequence|, s.sequence, s.plddt, s.coordinates)
    ensures ParseLines(lines, conv).Ok? && r.Err? ==>
              var s := ParseLines(lines, conv).value;
              r.error == LengthMismatch(|s.sequence|, |s.plddt|)
  {
    match ParseLines(lines, conv)
    case Err(e) => Err(e)
    case Ok(s) =>
      if |s.plddt| == |s.sequence| then Ok(Pdb(s.dbref, |s.sequence|, s.sequence, s.plddt, s.coordinates))
      else Err(LengthMismatch(|s.sequence|, |s.plddt|))
  }

  /** Once a prefix of the input fails, the whole parse fails the same way. */
  lemma {:induction false} ErrorPersists(lines: seq<Line>, n: nat, conv: Conversions)
    requires n <= |lines|
    requires ParseLines(lines[..n], conv).Err?
    ensures ParseLines(lines, conv) == ParseLines(lines[..n], conv)
    decreases |lines|
  {
    if n < |lines| {
      var prefix := lines[..|lines| - 1];
      assert prefix[..n] == lines[..n];
      ErrorPersists(prefix, n, conv);
    } else {
      assert lines[..n] == lines;
    }
  }

  /** The imperative parser: one pass over the lines, updating the same
      locals `parse_model` does, then the length check. */
  method ParseModel(lines: seq<Line>, conv: Conversions) returns (r: Result<Pdb, ParseError>)
    ensures r == Parse(lines, conv)
  {
    var dbref: Option<DbRef> := None;
    var sequence: seq<char> := [];
    var plddt: seq<real> := [];
    var coordinates: map<int, Coordinate> := map[];
    var currentResNum := 0;

    var i := 0;
    while i < |lines|
      invariant 0 <= i <= |lines|
      invariant ParseLines(lines[..i], conv) == Ok(ParseState(dbref, sequence, plddt, coordinates, currentResNum))
    {
      var fields := lines[i];
      assert lines[..i + 1][..i] == lines[..i];
      ghost var before := ParseState(dbref, sequence, plddt, coordinates, currentResNum);
      if |fields| == 0 {
        ErrorPersists(lines, i + 1, conv);
        return Err(MissingField);
      }
      var tag := fields[0];
      if tag == "DBREF" {
        if |fields| < 8 {
          ErrorPersists(lines, i + 1, conv);
          return Err(MissingField);
        }
        dbref := Some(DbRef(fields[6], fields[7]));
      } else if tag == "SEQRES" {
        var letters := TranslateResidues(ResidueCodes(fields));
        if letters.Err? {
          ErrorPersists(lines, i + 1, conv);
          return Err(UnknownResidue(letters.error));
        }
        sequence := sequence + letters.value;
      } else if tag == "ATOM" {
        if |fields| < 6 {
          ErrorPersists(lines, i + 1, conv);
          return Err(MissingField);
        }
        var number := conv.toInt(fields[5]);
        if number.None? {
          ErrorPersists(lines, i + 1, conv);
          return Err(BadNumber(fields[5]));
        }
        var resNum := number.value;
        var atomType := fields[2];
        if resNum > currentResNum {
          if |fields| < 11 {
            ErrorPersists(lines, i + 1, conv);
            return Err(MissingField);
          }
          var score := conv.toReal(fields[10]);
          if score.None? {
            ErrorPersists(lines, i + 1, conv);
            return Err(BadNumber(fields[10]));
          }
          plddt := plddt + [score.value];
          currentResNum := currentResNum + 1;
        }
        if atomType == "CA" {
          if |fields| < 9 {
            ErrorPersists(lines, i + 1, conv);
            return Err(MissingField);
          }
          coordinates := coordinates[resNum := Coordinate(fields[6], fields[7], fields[8])];
        }
      }
      assert Step(before, fields, conv) == Ok(ParseState(dbref, sequence, plddt, coordinates, currentResNum));
      i := i + 1;
    }
    assert lines[..i] == lines;
    if |plddt| == |sequence| {
      r := Ok(Pdb(dbref, |sequence|, sequence, plddt, coordinates));
    } else {
      r := Err(LengthMismatch(|sequence|, |plddt|));
    }
  }

  // ---------------------------------------------------------------------
  // What the parse collects, line by line

  predicate IsAtomLine(line: Line, conv: Conversions)
  {
    HasTag(line, "ATOM") && |line| >= 6 && conv.toInt(line[5]).Some?
  }

  function ResNum(line: Line, conv: Conversions): int
    requires IsAtomLine(line, conv)
  {
    conv.toInt(line[5]).value
  }

  predicate IsCaLine(line: Line, conv: Conversions)
  {
    IsAtomLine(line, conv) && line[2] == "CA"
  }

  /** A line whose tag is none of DBREF, SEQRES and ATOM has no effect: the
      parse with it removed has the same outcome. */
  lemma {:induction false} OtherRecordIgnored(before: seq<Line>, line: Line, after: seq<Line>, conv: Conversions)
    requires |line| > 0 && line[0] != "DBREF" && line[0] != "SEQRES" && line[0] != "ATOM"
    ensures ParseLines(before + [line] + after, conv) == ParseLines(before + after, conv)
    decreases |after|
  {
    var with := before + [line] + after;
    var without := before + after;
    if after == [] {
      assert with[..|with| - 1] == before && with[|with| - 1] == line;
      assert without == before;
      if ParseLines(before, conv).Ok? {
        StepOther(ParseLines(before, conv).value, line, conv);
      }
    } else {
      var shorter := after[..|after| - 1];
      OtherRecordIgnored(before, line, shorter, conv);
      assert with[..|with| - 1] == before + [line] + shorter;
      assert without[..|without| - 1] == before + shorter;
      assert with[|with| - 1] == without[|without| - 1];
      ParseLinesCongruent(with, without, conv);
    }
  }

  /** What one step does to the sequence. */
  lemma StepSequence(s: ParseState, line: Line, conv: Conversions)
    requires Step(s, line, conv).Ok?
    ensures HasTag(line, "SEQRES") ==>
              Translate(ResidueCodes(line)).Ok? &&
              Step(s, line, conv).value.sequence == s.sequence + Translate(ResidueCodes(line)).value
    ensures !HasTag(line, "SEQRES") ==> Step(s, line, conv).value.sequence == s.sequence
  {
  }

  /** What one step does to the coordinates. */
  lemma StepCoordinates(s: ParseState, line: Line, conv: Conversions)
    requires Step(s, line, conv).Ok?
    ensures IsCaLine(line, conv) ==>
              |line| >= 9 &&
              Step(s, line, conv).value.coordinates ==
                s.coordinates[ResNum(line, conv) := Coordinate(line[6], line[7], line[8])]
    ensures !IsCaLine(line, conv) ==> Step(s, line, conv).value.coordinates == s.coordinates
  {
  }

  /** All SEQRES residue codes of the file, in file order. */
  function SeqresCodes(lines: seq<Line>): seq<string>
    decreases |lines|
  {
    if lines == [] then []
    else
      var last := lines[|lines| - 1];
      SeqresCodes(lines[..|lines| - 1]) + (if HasTag(last, "SEQRES") then ResidueCodes(last) else [])
  }

  /** The parsed sequence is the table translation of every SEQRES code in
      file order (so each code is known to the table). */
  lemma {:induction false} SequenceFromSeqres(lines: seq<Line>, conv: Conversions)
    requires ParseLines(lines, conv).Ok?
    ensures Translate(SeqresCodes(lines)) == Ok(ParseLines(lines, conv).value.sequence)
    decreases |lines|
  {
    if lines != [] {
      var prefix := lines[..|lines| - 1];
      var last := lines[|lines| - 1];
      SequenceFromSeqres(prefix, conv);
      StepSequence(ParseLines(prefix, conv).value, last, conv);
      if HasTag(last, "SEQRES") {
        TranslateAppend(SeqresCodes(prefix), ResidueCodes(last));
      } else {
        assert SeqresCodes(lines) == SeqresCodes(prefix);
      }
    }
  }

  /** An unknown SEQRES code anywhere in the file aborts the parse. */
  lemma UnknownResidueAborts(lines: seq<Line>, conv: Conversions, k: nat)
    requires k < |SeqresCodes(lines)| && !Known(SeqresCodes(lines)[k])
    ensures ParseLines(lines, conv).Err?
  {
    if ParseLines(lines, conv).Ok? {
      SequenceFromSeqres(lines, conv);
      assert false;
    }
  }

  predicate NoLaterTag(lines: seq<Line>, k: int, tag: string)
  {
    forall j :: k < j < |lines| && 0 <= j ==> !HasTag(lines[j], tag)
  }

  /** What one step does to the database reference. */
  lemma StepDbref(s: ParseState, line: Line, conv: Conversions)
    requires Step(s, line, conv).Ok?
    ensures HasTag(line, "DBREF") ==> |line| >= 8 && Step(s, line, conv).value.dbref == Some(DbRef(line[6], line[7]))
    ensures !HasTag(line, "DBREF") ==> Step(s, line, conv).value.dbref == s.dbref
  {
  }

  /** `dbref` comes from the last DBREF line (fields 7 and 8), and stays
      unset when there is none. */
  lemma {:induction false} DbrefFromLastDbrefLine(lines: seq<Line>, conv: Conversions)
    requires ParseLines(lines, conv).Ok?
    ensures NoLaterTag(lines, -1, "DBREF") ==> ParseLines(lines, conv).value.dbref == None
    ensures forall k :: 0 <= k < |lines| && HasTag(lines[k], "DBREF") && NoLaterTag(lines, k, "DBREF") ==>
              |lines[k]| >= 8 && ParseLines(lines, conv).value.dbref == Some(DbRef(lines[k][6], lines[k][7]))
    decreases |lines|
  {
    if lines != [] {
      var n := |lines|;
      var prefix := lines[..n - 1];
      var last := lines[n - 1];
      ParseLinesLast(lines, conv);
      DbrefFromLastDbrefLine(prefix, conv);
      var s0 := ParseLines(prefix, conv).value;
      var s := ParseLines(lines, conv).value;
      StepDbref(s0, last, conv);
      NoLaterTagPrefix(lines, "DBREF");
    }
  }

  /** How the last line of a tag moves when one line is appended: an
      appended line with the tag is the new last one; any other line leaves
      the last one where it was. */
  lemma NoLaterTagPrefix(lines: seq<Line>, tag: string)
    requires lines != []
    ensures HasTag(lines[|lines| - 1], tag) ==>
              forall k :: 0 <= k < |lines| - 1 ==> !NoLaterTag(lines, k, tag)
    ensures !HasTag(lines[|lines| - 1], tag) ==>
              (NoLaterTag(lines, -1, tag) ==> NoLaterTag(lines[..|lines| - 1], -1, tag)) &&
              forall k :: 0 <= k < |lines| && HasTag(lines[k], tag) && NoLaterTag(lines, k, tag) ==>
                k < |lines| - 1 && lines[..|lines| - 1][k] == lines[k] && NoLaterTag(lines[..|lines| - 1], k, tag)
  {
    var n := |lines|;
    var prefix := lines[..n - 1];
    if HasTag(lines[n - 1], tag) {
      forall k | 0 <= k < n - 1 ensures !NoLaterTag(lines, k, tag) {
        assert HasTag(lines[n - 1], tag);
      }
    } else {
      forall k | 0 <= k < n && HasTag(lines[k], tag) && NoLaterTag(lines, k, tag)
        ensures k < n - 1 && prefix[k] == lines[k] && NoLaterTag(prefix, k, tag)
      {
        assert k != n - 1;
      }
      if NoLaterTag(lines, -1, tag) {
        assert NoLaterTag(prefix, -1, tag);
      }
    }
  }

  predicate CaLineFor(lines: seq<Line>, conv: Conversions, p: int)
  {
    exists k :: 0 <= k < |lines| && IsCaLine(lines[k], conv) && ResNum(lines[k], conv) == p
  }

  /** No later CA line carries the same residue number as line k. */
  predicate LastCaLine(lines: seq<Line>, conv: Conversions, k: int)
    requires 0 <= k < |lines| && IsCaLine(lines[k], conv)
  {
    forall j :: k < j < |lines| && IsCaLine(lines[j], conv) ==> ResNum(lines[j], conv) != ResNum(lines[k], conv)
  }

  /** Appending a line adds at most its own CA record to those carrying p. */
  lemma CaLineForAppend(prefix: seq<Line>, last: Line, conv: Conversions, p: int)
    ensures CaLineFor(prefix + [last], conv, p) <==>
              CaLineFor(prefix, conv, p) || (IsCaLine(last, conv) && ResNum(last, conv) == p)
  {
    var lines := prefix + [last];
    if CaLineFor(prefix, conv, p) {
      var k :| 0 <= k < |prefix| && IsCaLine(prefix[k], conv) && ResNum(prefix[k], conv) == p;
      assert lines[k] == prefix[k];
    }
    if IsCaLine(last, conv) && ResNum(last, conv) == p {
      assert lines[|prefix|] == last;
    }
    if CaLineFor(lines, conv, p) {
      var k :| 0 <= k < |lines| && IsCaLine(lines[k], conv) && ResNum(lines[k], conv) == p;
      if k < |prefix| {
        assert prefix[k] == lines[k];
      }
    }
  }

  /** A CA line of the prefix that stays the last for its residue once a line
      is appended is the last in the prefix, and the appended line does not
      carry its number. */
  lemma LastCaLineAppend(prefix: seq<Line>, last: Line, conv: Conversions, k: nat)
    requires k < |prefix| && IsCaLine(prefix[k], conv)
    requires LastCaLine(prefix + [last], conv, k)
    ensures LastCaLine(prefix, conv, k)
    ensures IsCaLine(last, conv) ==> ResNum(last, conv) != ResNum(prefix[k], conv)
  {
    var lines := prefix + [last];
    forall j | k < j < |prefix| && IsCaLine(prefix[j], conv)
      ensures ResNum(prefix[j], conv) != ResNum(prefix[k], conv)
    {
      assert lines[j] == prefix[j];
    }
    assert lines[|prefix|] == last;
  }

  lemma {:induction false} CoordinateKeys(lines: seq<Line>, conv: Conversions)
    requires ParseLines(lines, conv).Ok?
    ensures forall p :: p in ParseLines(lines, conv).value.coordinates <==> CaLineFor(lines, conv, p)
    decreases |lines|
  {
    if lines != [] {
      var n := |lines|;
      var prefix := lines[..n - 1];
      var last := lines[n - 1];
      ParseLinesLast(lines, conv);
      CoordinateKeys(prefix, conv);
      var s0 := ParseLines(prefix, conv).value;
      var s := ParseLines(lines, conv).value;
      StepCoordinates(s0, last, conv);
      assert prefix + [last] == lines;
      forall q ensures q in s.coordinates <==> CaLineFor(lines, conv, q) {
        CaLineForAppend(prefix, last, conv, q);
      }
    }
  }

  lemma {:induction false} CoordinateValues(lines: seq<Line>, conv: Conversions)
    requires ParseLines(lines, conv).Ok?
    ensures forall k :: 0 <= k < |lines| && IsCaLine(lines[k], conv) && LastCaLine(lines, conv, k) ==>
              |lines[k]| >= 9 && ResNum(lines[k], conv) in ParseLines(lines, conv).value.coordinates &&
              ParseLines(lines, conv).value.coordinates[ResNum(lines[k], conv)] ==
                Coordinate(lines[k][6], lines[k][7], lines[k][8])
    decreases |lines|
  {
    if lines != [] {
      var n := |lines|;
      var prefix := lines[..n - 1];
      var last := lines[n - 1];
      ParseLinesLast(lines, conv);
      CoordinateValues(prefix, conv);
      var s0 := ParseLines(prefix, conv).value;
      var s := ParseLines(lines, conv).value;
      StepCoordinates(s0, last, conv);
      assert prefix + [last] == lines;
      forall k | 0 <= k < n && IsCaLine(lines[k], conv) && LastCaLine(lines, conv, k)
        ensures |lines[k]| >= 9 && ResNum(lines[k], conv) in s.coordinates &&
                s.coordinates[ResNum(lines[k], conv)] == Coordinate(lines[k][6], lines[k][7], lines[k][8])
      {
        if k < n - 1 {
          assert lines[k] == prefix[k];
          LastCaLineAppend(prefix, last, conv, k);
        }
      }
    }
  }

  /** Only CA atoms write `coordinates`: a residue number is a key exactly
      when some CA line carries it, and its value is the raw x, y, z fields of
      the last such line. */
  lemma CoordinatesFromCaLines(lines: seq<Line>, conv: Conversions)
    requires ParseLines(lines, conv).Ok?
    ensures forall p :: p in ParseLines(lines, conv).value.coordinates <==> CaLineFor(lines, conv, p)
    ensures forall k :: 0 <= k < |lines| && IsCaLine(lines[k], conv) && LastCaLine(lines, conv, k) ==>
              |lines[k]| >= 9 && ResNum(lines[k], conv) in ParseLines(lines, conv).value.coordinates &&
              ParseLines(lines, conv).value.coordinates[ResNum(lines[k], conv)] ==
                Coordinate(lines[k][6], lines[k][7], lines[k][8])
  {
    CoordinateKeys(lines, conv);
    CoordinateValues(lines, conv);
  }

  /** What one step does to the pLDDT list: an ATOM line whose residue number
      exceeds the counter appends its field-11 score, nothing else does. */
  lemma StepPlddt(s: ParseState, line: Line, conv: Conversions)
    requires Step(s, line, conv).Ok?
    ensures HasTag(line, "ATOM") ==> IsAtomLine(line, conv)
    ensures IsAtomLine(line, conv) && ResNum(line, conv) > s.currentResNum ==>
              |line| >= 11 && conv.toReal(line[10]).Some? &&
              Step(s, line, conv).value.plddt == s.plddt + [conv.toReal(line[10]).value]
    ensures !(IsAtomLine(line, conv) && ResNum(line, conv) > s.currentResNum) ==>
              Step(s, line, conv).value.plddt == s.plddt
  {
  }

  /** The residue numbers of the ATOM lines, in file order. */
  function AtomNumbers(lines: seq<Line>, conv: Conversions): seq<int>
    decreases |lines|
  {
    if lines == [] then []
    else
      var last := lines[|lines| - 1];
      AtomNumbers(lines[..|lines| - 1], conv) + (if IsAtomLine(last, conv) then [ResNum(last, conv)] else [])
  }

  predicate AtomLineFor(lines: seq<Line>, conv: Conversions, p: int)
  {
    exists k :: 0 <= k < |lines| && IsAtomLine(lines[k], conv) && ResNum(lines[k], conv) == p
  }

  lemma {:induction false} AtomNumbersMembers(lines: seq<Line>, conv: Conversions)
    ensures forall p :: p in AtomNumbers(lines, conv) <==> AtomLineFor(lines, conv, p)
    decreases |lines|
  {
    if lines != [] {
      var n := |lines|;
      var prefix := lines[..n - 1];
      AtomNumbersMembers(prefix, conv);
      forall p ensures p in AtomNumbers(lines, conv) <==> AtomLineFor(lines, conv, p) {
        if AtomLineFor(prefix, conv, p) {
          var k :| 0 <= k < n - 1 && IsAtomLine(prefix[k], conv) && ResNum(prefix[k], conv) == p;
          assert lines[k] == prefix[k];
        }
        if AtomLineFor(lines, conv, p) {
          var k :| 0 <= k < n && IsAtomLine(lines[k], conv) && ResNum(lines[k], conv) == p;
          if k < n - 1 {
            assert prefix[k] == lines[k];
          }
        }
      }
    }
  }

  /** Residue numbers that start at 1 and never skip or go back. */
  predicate Contiguous(ns: seq<int>)
  {
    (|ns| > 0 ==> ns[0] == 1) &&
    forall i, j :: 0 <= i < |ns| && 0 <= j < |ns| && j == i + 1 ==> ns[j] == ns[i] || ns[j] == ns[i] + 1
  }

  lemma {:induction false} ContiguousBounded(ns: seq<int>)
    requires Contiguous(ns) && |ns| > 0
    ensures forall k :: 0 <= k < |ns| ==> 1 <= ns[k] <= ns[|ns| - 1]
    decreases |ns|
  {
    if |ns| > 1 {
      var prefix := ns[..|ns| - 1];
      assert Contiguous(prefix);
      ContiguousBounded(prefix);
    }
  }

  /** Line k is the first ATOM line of its residue. */
  predicate FirstAtomLine(lines: seq<Line>, conv: Conversions, k: int)
    requires 0 <= k < |lines| && IsAtomLine(lines[k], conv)
  {
    forall j :: 0 <= j < k && IsAtomLine(lines[j], conv) ==> ResNum(lines[j], conv) != ResNum(lines[k], conv)
  }

  /** Residue p's first ATOM line carries `score` in its eleventh field. */
  predicate ScoredByFirstAtom(lines: seq<Line>, conv: Conversions, p: int, score: real)
  {
    exists k :: 0 <= k < |lines| && IsAtomLine(lines[k], conv) && FirstAtomLine(lines, conv, k) &&
                ResNum(lines[k], conv) == p && |lines[k]| >= 11 && conv.toReal(lines[k][10]) == Some(score)
  }

  /** The pLDDT list is as long as the last ATOM residue number. */
  predicate PlddtLength(lines: seq<Line>, conv: Conversions, plddt: seq<real>)
  {
    var ns := AtomNumbers(lines, conv);
    |plddt| == if ns == [] then 0 else ns[|ns| - 1]
  }

  /** Each first ATOM line's score sits at its residue's index. */
  predicate FirstAtomsScored(lines: seq<Line>, conv: Conversions, plddt: seq<real>)
  {
    forall k :: 0 <= k < |lines| && IsAtomLine(lines[k], conv) && FirstAtomLine(lines, conv, k) ==>
      1 <= ResNum(lines[k], conv) <= |plddt| && |lines[k]| >= 11 &&
      conv.toReal(lines[k][10]) == Some(plddt[ResNum(lines[k], conv) - 1])
  }

  /** Each index holds the score of its residue's first ATOM line. */
  predicate ScoresFromFirstAtoms(lines: seq<Line>, conv: Conversions, plddt: seq<real>)
  {
    forall i :: 0 <= i < |plddt| ==> ScoredByFirstAtom(lines, conv, i + 1, plddt[i])
  }

  /** The pLDDT list agrees with the ATOM lines. */
  predicate PlddtIndexed(lines: seq<Line>, conv: Conversions, plddt: seq<real>)
  {
    PlddtLength(lines, conv, plddt) && FirstAtomsScored(lines, conv, plddt) && ScoresFromFirstAtoms(lines, conv, plddt)
  }

  lemma AtomNumbersAppend(prefix: seq<Line>, last: Line, conv: Conversions)
    ensures AtomNumbers(prefix + [last], conv) ==
              AtomNumbers(prefix, conv) + (if IsAtomLine(last, conv) then [ResNum(last, conv)] else [])
  {
    var lines := prefix + [last];
    assert lines[..|lines| - 1] == prefix;
  }

  /** Under contiguous numbering an appended residue number repeats the last
      one or is one past it. */
  lemma ContiguousAppend(ns0: seq<int>, p: int)
    requires Contiguous(ns0 + [p])
    ensures Contiguous(ns0)
    ensures ns0 == [] ==> p == 1
    ensures ns0 != [] ==> p == ns0[|ns0| - 1] || p == ns0[|ns0| - 1] + 1
  {
    var ns := ns0 + [p];
    assert forall k :: 0 <= k < |ns0| ==> ns0[k] == ns[k];
    assert ns[|ns0|] == p;
  }

  /** Lines of the prefix keep their place, and whether they open their
      residue, once a line is appended. */
  lemma FirstAtomLinePrefix(prefix: seq<Line>, last: Line, conv: Conversions, k: nat)
    requires k < |prefix| && IsAtomLine(prefix[k], conv)
    ensures (prefix + [last])[k] == prefix[k]
    ensures FirstAtomLine(prefix + [last], conv, k) <==> FirstAtomLine(prefix, conv, k)
  {
    var lines := prefix + [last];
    assert forall j :: 0 <= j < k ==> lines[j] == prefix[j];
  }

  /** With contiguous numbering and the prefix's numbers ending at m, an
      appended ATOM line carries m or m + 1, and it opens its residue exactly
      when it carries m + 1. */
  lemma LastAtomLineFirst(prefix: seq<Line>, last: Line, conv: Conversions, m: int)
    requires IsAtomLine(last, conv)
    requires Contiguous(AtomNumbers(prefix + [last], conv))
    requires var ns0 := AtomNumbers(prefix, conv); m == if ns0 == [] then 0 else ns0[|ns0| - 1]
    ensures ResNum(last, conv) == m || ResNum(last, conv) == m + 1
    ensures FirstAtomLine(prefix + [last], conv, |prefix|) <==> ResNum(last, conv) == m + 1
  {
    var lines := prefix + [last];
    var ns0 := AtomNumbers(prefix, conv);
    var p := ResNum(last, conv);
    AtomNumbersAppend(prefix, last, conv);
    ContiguousAppend(ns0, p);
    AtomNumbersMembers(prefix, conv);
    assert lines[|prefix|] == last;
    if p == m + 1 {
      if ns0 != [] {
        ContiguousBounded(ns0);
      }
      forall j | 0 <= j < |prefix| && IsAtomLine(lines[j], conv) ensures ResNum(lines[j], conv) != p {
        assert lines[j] == prefix[j];
        assert AtomLineFor(prefix, conv, ResNum(prefix[j], conv));
      }
    } else {
      assert ns0[|ns0| - 1] in ns0;
      var j :| 0 <= j < |prefix| && IsAtomLine(prefix[j], conv) && ResNum(prefix[j], conv) == p;
      assert lines[j] == prefix[j];
    }
  }

  /** `plddt` is `plddt0` after one line, with the counter at |plddt0|. */
  predicate PlddtAfter(last: Line, conv: Conversions, plddt0: seq<real>, plddt: seq<real>)
  {
    if IsAtomLine(last, conv) && ResNum(last, conv) > |plddt0| then
      |last| >= 11 && conv.toReal(last[10]).Some? && plddt == plddt0 + [conv.toReal(last[10]).value]
    else plddt == plddt0
  }

  /** What the appended line is, for the three parts of the inductive step. */
  lemma AppendedLine(prefix: seq<Line>, last: Line, conv: Conversions, plddt0: seq<real>, plddt: seq<real>)
    requires Contiguous(AtomNumbers(prefix + [last], conv))
    requires PlddtLength(prefix, conv, plddt0)
    requires PlddtAfter(last, conv, plddt0, plddt)
    ensures PlddtLength(prefix + [last], conv, plddt)
    ensures IsAtomLine(last, conv) ==>
              (FirstAtomLine(prefix + [last], conv, |prefix|) <==> ResNum(last, conv) == |plddt0| + 1)
    ensures IsAtomLine(last, conv) && ResNum(last, conv) == |plddt0| + 1 ==>
              |last| >= 11 && plddt == plddt0 + [conv.toReal(last[10]).value] &&
              conv.toReal(last[10]) == Some(plddt[|plddt0|])
    ensures !(IsAtomLine(last, conv) && ResNum(last, conv) == |plddt0| + 1) ==> plddt == plddt0
  {
    AtomNumbersAppend(prefix, last, conv);
    if IsAtomLine(last, conv) {
      LastAtomLineFirst(prefix, last, conv, |plddt0|);
    }
  }

  lemma PlddtExtendFirst(prefix: seq<Line>, last: Line, conv: Conversions, plddt0: seq<real>, plddt: seq<real>)
    requires Contiguous(AtomNumbers(prefix + [last], conv))
    requires PlddtLength(prefix, conv, plddt0) && FirstAtomsScored(prefix, conv, plddt0)
    requires PlddtAfter(last, conv, plddt0, plddt)
    ensures FirstAtomsScored(prefix + [last], conv, plddt)
  {
    forall k | 0 <= k < |prefix + [last]| && IsAtomLine((prefix + [last])[k], conv) && FirstAtomLine(prefix + [last], conv, k)
      ensures var line := (prefix + [last])[k];
        1 <= ResNum(line, conv) <= |plddt| && |line| >= 11 && conv.toReal(line[10]) == Some(plddt[ResNum(line, conv) - 1])
    {
      PlddtExtendFirstAt(prefix, last, conv, plddt0, plddt, k);
    }
  }

  /** The step of `PlddtExtendFirst` for one line k. */
  lemma PlddtExtendFirstAt(prefix: seq<Line>, last: Line, conv: Conversions, plddt0: seq<real>, plddt: seq<real>, k: nat)
    requires Contiguous(AtomNumbers(prefix + [last], conv))
    requires PlddtLength(prefix, conv, plddt0) && FirstAtomsScored(prefix, conv, plddt0)
    requires PlddtAfter(last, conv, plddt0, plddt)
    requires k < |prefix| + 1 && IsAtomLine((prefix + [last])[k], conv) && FirstAtomLine(prefix + [last], conv, k)
    ensures var line := (prefix + [last])[k];
      1 <= ResNum(line, conv) <= |plddt| && |line| >= 11 && conv.toReal(line[10]) == Some(plddt[ResNum(line, conv) - 1])
  {
    AppendedLine(prefix, last, conv, plddt0, plddt);
    if k < |prefix| {
      FirstAtomLinePrefix(prefix, last, conv, k);
      assert FirstAtomLine(prefix, conv, k);
      var p := ResNum(prefix[k], conv);
      assert 1 <= p <= |plddt0| && conv.toReal(prefix[k][10]) == Some(plddt0[p - 1]);
      PlddtAfterExtends(last, conv, plddt0, plddt);
      assert plddt[p - 1] == plddt0[p - 1];
    } else {
      assert (prefix + [last])[k] == last;
    }
  }

  lemma PlddtAfterExtends(last: Line, conv: Conversions, plddt0: seq<real>, plddt: seq<real>)
    requires PlddtAfter(last, conv, plddt0, plddt)
    ensures |plddt0| <= |plddt| && forall i :: 0 <= i < |plddt0| ==> plddt[i] == plddt0[i]
  {
  }

  lemma PlddtExtendScored(prefix: seq<Line>, last: Line, conv: Conversions, plddt0: seq<real>, plddt: seq<real>)
    requires Contiguous(AtomNumbers(prefix + [last], conv))
    requires PlddtLength(prefix, conv, plddt0) && ScoresFromFirstAtoms(prefix, conv, plddt0)
    requires PlddtAfter(last, conv, plddt0, plddt)
    ensures ScoresFromFirstAtoms(prefix + [last], conv, plddt)
  {
    var lines := prefix + [last];
    var n := |lines|;
    assert lines[n - 1] == last;
    AppendedLine(prefix, last, conv, plddt0, plddt);
    forall i | 0 <= i < |plddt| ensures ScoredByFirstAtom(lines, conv, i + 1, plddt[i]) {
      if i < |plddt0| {
        assert plddt[i] == plddt0[i];
        assert ScoredByFirstAtom(prefix, conv, i + 1, plddt0[i]);
        var k :| 0 <= k < |prefix| && IsAtomLine(prefix[k], conv) && FirstAtomLine(prefix, conv, k) &&
                 ResNum(prefix[k], conv) == i + 1 && |prefix[k]| >= 11 && conv.toReal(prefix[k][10]) == Some(plddt0[i]);
        FirstAtomLinePrefix(prefix, last, conv, k);
      } else {
        assert IsAtomLine(lines[n - 1], conv) && FirstAtomLine(lines, conv, n - 1);
      }
    }
  }

  /** The inductive step of PlddtFromFirstAtoms, stated over the effect of
      one line on the list (as StepPlddt gives it). */
  lemma PlddtExtend(prefix: seq<Line>, last: Line, conv: Conversions, plddt0: seq<real>, plddt: seq<real>)
    requires Contiguous(AtomNumbers(prefix + [last], conv))
    requires PlddtIndexed(prefix, conv, plddt0)
    requires PlddtAfter(last, conv, plddt0, plddt)
    ensures PlddtIndexed(prefix + [last], conv, plddt)
  {
    AppendedLine(prefix, last, conv, plddt0, plddt);
    PlddtExtendFirst(prefix, last, conv, plddt0, plddt);
    PlddtExtendScored(prefix, last, conv, plddt0, plddt);
  }

  /** The parsed pLDDT list is indexed by the first ATOM line of each residue. */
  lemma {:induction false} PlddtIndexedByParse(lines: seq<Line>, conv: Conversions)
    requires ParseLines(lines, conv).Ok?
    requires Contiguous(AtomNumbers(lines, conv))
    ensures PlddtIndexed(lines, conv, ParseLines(lines, conv).value.plddt)
    decreases |lines|
  {
    if lines != [] {
      var n := |lines|;
      var prefix := lines[..n - 1];
      var last := lines[n - 1];
      ParseLinesLast(lines, conv);
      var s0 := ParseLines(prefix, conv).value;
      var s := ParseLines(lines, conv).value;
      StepPlddt(s0, last, conv);
      assert PlddtAfter(last, conv, s0.plddt, s.plddt);
      assert prefix + [last] == lines;
      AtomNumbersAppend(prefix, last, conv);
      if IsAtomLine(last, conv) {
        ContiguousAppend(AtomNumbers(prefix, conv), ResNum(last, conv));
      } else {
        assert AtomNumbers(lines, conv) == AtomNumbers(prefix, conv);
      }
      PlddtIndexedByParse(prefix, conv);
      PlddtExtend(prefix, last, conv, s0.plddt, s.plddt);
    }
  }

  /** With contiguous ATOM residue numbers starting at 1, residue p gets
      exactly one pLDDT value: it sits at index p - 1 and is the score of p's
      first ATOM line; the list is as long as the last residue number. */
  lemma PlddtFromFirstAtoms(lines: seq<Line>, conv: Conversions)
    requires ParseLines(lines, conv).Ok?
    requires Contiguous(AtomNumbers(lines, conv))
    ensures var ns := AtomNumbers(lines, conv);
            |ParseLines(lines, conv).value.plddt| == if ns == [] then 0 else ns[|ns| - 1]
    ensures var plddt := ParseLines(lines, conv).value.plddt;
            forall k :: 0 <= k < |lines| && IsAtomLine(lines[k], conv) && FirstAtomLine(lines, conv, k) ==>
              1 <= ResNum(lines[k], conv) <= |plddt| && |lines[k]| >= 11 &&
              conv.toReal(lines[k][10]) == Some(plddt[ResNum(lines[k], conv) - 1])
    ensures var plddt := ParseLines(lines, conv).value.plddt;
            forall i :: 0 <= i < |plddt| ==> ScoredByFirstAtom(lines, conv, i + 1, plddt[i])
  {
    PlddtIndexedByParse(lines, conv);
  }

  /** For a parsed structure with contiguous ATOM residue numbers, the
      `get_plddt` score of every residue is the eleventh field of that
      residue's first ATOM line. */
  lemma ParsedPlddt(lines: seq<Line>, conv: Conversions, residue: int)
    requires Parse(lines, conv).Ok?
    requires Contiguous(AtomNumbers(lines, conv))
    requires 1 <= residue <= Parse(lines, conv).value.length
    ensures ScoredByFirstAtom(lines, conv, residue, Parse(lines, conv).value.Plddt(residue))
  {
    PlddtFromFirstAtoms(lines, conv);
  }

  /** For a parsed structure, `get_Ca_coord` finds a residue exactly when a
      CA line carries its number, and then returns that line's x, y, z. */
  lemma ParsedCaCoordinate(lines: seq<Line>, conv: Conversions, k: nat)
    requires Parse(lines, conv).Ok?
    requires k < |lines| && IsCaLine(lines[k], conv) && LastCaLine(lines, conv, k)
    ensures |lines[k]| >= 9
    ensures Parse(lines, conv).value.CaCoordinate(ResNum(lines[k], conv)) ==
              Some(Coordinate(lines[k][6], lines[k][7], lines[k][8]))
  {
    CoordinatesFromCaLines(lines, conv);
  }

  lemma ParsedCaCoordinateMissing(lines: seq<Line>, conv: Conversions, residue: int)
    requires Parse(lines, conv).Ok?
    requires !CaLineFor(lines, conv, residue)
    ensures Parse(lines, conv).value.CaCoordinate(residue) == None
  {
    CoordinatesFromCaLines(lines, conv);
  }

  // ---------------------------------------------------------------------
  // The residue table is one-to-one

  lemma TableBackwards0(code: string)
    requires code == "VAL" || code == "ILE"
    ensures code in ThreeToOne && ThreeToOne[code] in OneToThree && OneToThree[ThreeToOne[code]] == code
  {
  }

  lemma TableBackwards1(code: string)
    requires code == "LEU" || code == "GLU" || code == "GLN"
    ensures code in ThreeToOne && ThreeToOne[code] in OneToThree && OneToThree[ThreeToOne[code]] == code
  {
  }

  lemma TableBackwards2(code: string)
    requires code == "ASP" || code == "ASN" || code == "HIS" || code == "TRP" || code == "PHE"
    ensures code in ThreeToOne && ThreeToOne[code] in OneToThree && OneToThree[ThreeToOne[code]] == code
  {
  }

  lemma TableBackwards3(code: string)
    requires code == "TYR" || code == "ARG" || code == "LYS" || code == "SER" || code == "THR"
    ensures code in ThreeToOne && ThreeToOne[code] in OneToThree && OneToThree[ThreeToOne[code]] == code
  {
  }

  lemma TableBackwards4(code: string)
    requires code == "MET" || code == "ALA" || code == "GLY" || code == "PRO" || code == "CYS"
    ensures code in ThreeToOne && ThreeToOne[code] in OneToThree && OneToThree[ThreeToOne[code]] == code
  {
  }

  /** Reading the table backwards gives each three-letter code again, so
      the table never gives two codes the same letter. */
  lemma TableInjective()
    ensures forall code :: code in ThreeToOne ==> ThreeToOne[code] in OneToThree && OneToThree[ThreeToOne[code]] == code
    ensures forall a, b :: a in ThreeToOne && b in ThreeToOne && ThreeToOne[a] == ThreeToOne[b] ==> a == b
  {
    forall code | code in ThreeToOne
      ensures ThreeToOne[code] in OneToThree && OneToThree[ThreeToOne[code]] == code
    {
      if code == "VAL" || code == "ILE" {
        TableBackwards0(code);
      } else if code == "LEU" || code == "GLU" || code == "GLN" {
        TableBackwards1(code);
      } else if code == "ASP" || code == "ASN" || code == "HIS" || code == "TRP" || code == "PHE" {
        TableBackwards2(code);
      } else if code == "TYR" || code == "ARG" || code == "LYS" || code == "SER" || code == "THR" {
        TableBackwards3(code);
      } else {
        TableBackwards4(code);
      }
    }
  }

  /** Two known codes with the same letter are the same code up to case. */
  lemma OneLetterInjective(a: string, b: string)
    requires Known(a) && Known(b) && OneLetter(a) == OneLetter(b)
    ensures Upper(a) == Upper(b)
  {
    TableInjective();
  }
}
