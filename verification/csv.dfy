/**
  The per-line work of `read_csv` in hashing.cpp. A line of the file is
  `class,text`: everything before the first comma is the class and everything
  after it is the text. A line without a comma is skipped; otherwise the
  sample's label is 0 when the class is exactly `ham` and 1 for anything
  else, and its features are those of the text. Reading the file is not part
  of this model: the file arrives as its lines, or as None when it cannot be
  opened.
*/
module CsvLoading {
  import opened Options
  import opened Text
  import opened Murmur3
  import opened HashedFeatures
  import opened Classifier

  const Comma: bv8 := 0x2c

  /** The class name of the ham samples. */
  const Ham: seq<bv8> := [0x68, 0x61, 0x6d]

  /** `line.find(',')`: the index of the first comma, or None (`npos`) when
      there is none. */
  function FirstComma(line: seq<bv8>): (r: Option<nat>)
    ensures r.Some? ==> r.value < |line| && line[r.value] == Comma
    ensures r.Some? ==> forall j | 0 <= j < r.value :: line[j] != Comma
    ensures r.None? <==> Comma !in line
  {
    if line == [] then None
    else if line[0] == Comma then Some(0)
    else
      match FirstComma(line[1..])
      case None => None
      case Some(c) => Some(c + 1)
  }

  /** The label of a class name. */
  function LabelOf(name: seq<bv8>): (l: int)
    ensures l == 0 || l == 1
    ensures l == 0 <==> name == Ham
  {
    if name == Ham then 0 else 1
  }

  /** The sample a line gives, or None for a line that is skipped. */
  function ParseLine(line: seq<bv8>): Option<Sample>
  {
    match FirstComma(line)
    case None => None
    case Some(c) => Some(Sample(Features(line[c + 1..]), LabelOf(line[..c])))
  }

  /** A line gives a sample exactly when it holds a comma; the sample's label
      is 0 exactly when the bytes before the first comma are `ham`, and its
      features are those of the bytes after that comma. */
  lemma ParseLineSplits(line: seq<bv8>)
    ensures ParseLine(line).None? <==> Comma !in line
    ensures forall c: nat | c < |line| && line[c] == Comma && (forall j | 0 <= j < c :: line[j] != Comma) ::
      && ParseLine(line).Some?
      && (ParseLine(line).value.category == 0 <==> line[..c] == Ham)
      && ParseLine(line).value.category in {0, 1}
      && ParseLine(line).value.features == Features(line[c + 1..])
  {
    forall c: nat | c < |line| && line[c] == Comma && (forall j | 0 <= j < c :: line[j] != Comma)
      ensures FirstComma(line) == Some(c)
    {
      assert Comma in line;
    }
  }

  /** The samples the lines give, in order. */
  function Parsed(lines: seq<seq<bv8>>): seq<Sample>
  {
    if lines == [] then []
    else
      var rest := Parsed(lines[..|lines| - 1]);
      match ParseLine(lines[|lines| - 1])
      case None => rest
      case Some(s) => rest + [s]
  }

  /** The lines that hold a comma. */
  function WithComma(lines: seq<seq<bv8>>): nat
  {
    if lines == [] then 0
    else WithComma(lines[..|lines| - 1]) + (if Comma in lines[|lines| - 1] then 1 else 0)
  }

  /** There is one sample per line with a comma, each labelled 0 or 1, and
      each feature vector has HASH_DIM entries. */
  lemma {:induction false} ParsedSamples(lines: seq<seq<bv8>>)
    ensures |Parsed(lines)| == WithComma(lines)
    ensures forall i | 0 <= i < |Parsed(lines)| ::
      Parsed(lines)[i].category in {0, 1} && |Parsed(lines)[i].features| == HashDim
    decreases |lines|
  {
    if lines != [] {
      var last := lines[|lines| - 1];
      ParsedSamples(lines[..|lines| - 1]);
      ParseLineSplits(last);
    }
  }

  /** Every sample loaded from a file lands in exactly one cell of the
      confusion matrix. */
  lemma ParsedMetricsCover(lines: seq<seq<bv8>>, prob: seq<nat> -> real)
    ensures Total(Metrics(Parsed(lines), prob)) == |Parsed(lines)| == WithComma(lines)
  {
    ParsedSamples(lines);
    MetricsCover(Parsed(lines), prob);
  }

  /** The samples of one more line. */
  lemma ParsedSnoc(lines: seq<seq<bv8>>, i: nat, sample: Option<Sample>)
    requires i < |lines| && sample == ParseLine(lines[i])
    ensures Parsed(lines[..i + 1]) == Parsed(lines[..i]) + (if sample.Some? then [sample.value] else [])
  {
    assert lines[..i + 1][..i] == lines[..i];
  }

  /** The sample of a line whose first comma is at c. */
  lemma ParseLineAt(line: seq<bv8>, c: nat, features: seq<nat>)
    requires FirstComma(line) == Some(c) && features == Features(line[c + 1..])
    ensures ParseLine(line) == Some(Sample(features, LabelOf(line[..c])))
  {
  }

  /** One line of the loop: the sample it gives, if any. */
  method ReadLine(line: seq<bv8>) returns (sample: Option<Sample>)
    requires |line| < MaxLen
    ensures sample == ParseLine(line)
  {
    var commaPos := FirstComma(line);
    if commaPos.Some? {
      var c := commaPos.value;
      var category := if line[..c] == Ham then 0 else 1;
      var features := TextToFeatures(line[c + 1..]);
      ParseLineAt(line, c, features);
      sample := Some(Sample(features, category));
    } else {
      sample := None;
    }
  }

  /** `read_csv`: false, with data unchanged, when the file cannot be opened;
      otherwise true, with the sample of every line that gives one appended
      to data in the order of the lines. */
  method ReadCsv(file: Option<seq<seq<bv8>>>, data: seq<Sample>) returns (ok: bool, data': seq<Sample>)
    requires file.Some? ==> forall i | 0 <= i < |file.value| :: |file.value[i]| < MaxLen
    ensures ok <==> file.Some?
    ensures ok ==> data' == data + Parsed(file.value)
    ensures !ok ==> data' == data
  {
    if file.None? {
      return false, data;
    }
    var lines := file.value;
    data' := data;
    for i := 0 to |lines|
      invariant data' == data + Parsed(lines[..i])
    {
      var sample := ReadLine(lines[i]);
      ParsedSnoc(lines, i, sample);
      if sample.Some? {
        data' := data' + [sample.value];
      }
    }
    assert lines[..|lines|] == lines;
    ok := true;
  }
}
