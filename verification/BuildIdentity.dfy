/** The build identity's byte stream: what is hashed, and why it cannot be confused. */
module BuildIdentity {
  import opened Wrappers
  import opened ByteStrings

  datatype Field = Field(tag: Bytes, value: Bytes)
  datatype SourceFile = SourceFile(path: Bytes, content: Bytes)

  // Everything the identity is made of. Text is kept in its encoded form.
  datatype Inputs = Inputs(algorithm: nat, files: seq<SourceFile>, lockDigest: Bytes, schema: Bytes)

  // The five labels, as ASCII bytes.
  const ALGORITHM: Bytes := [97, 108, 103, 111, 114, 105, 116, 104, 109]
  const SOURCE_PATH: Bytes := [115, 111, 117, 114, 99, 101, 45, 112, 97, 116, 104]
  const SOURCE_BYTES: Bytes := [115, 111, 117, 114, 99, 101, 45, 98, 121, 116, 101, 115]
  const DEPENDENCY_LOCK: Bytes := [100, 101, 112, 101, 110, 100, 101, 110, 99, 121, 45, 108, 111, 99, 107]
  const PUBLIC_TOOL_SCHEMA: Bytes :=
    [112, 117, 98, 108, 105, 99, 45, 116, 111, 111, 108, 45, 115, 99, 104, 101, 109, 97]

  // str.encode of a text that is ASCII.
  ghost predicate Encodes(b: Bytes, text: string) {
    |b| == |text| && forall i :: 0 <= i < |b| ==> b[i] as int == text[i] as int
  }

  lemma LabelsAre()
    ensures Encodes(ALGORITHM, "algorithm") && Encodes(SOURCE_PATH, "source-path")
    ensures Encodes(SOURCE_BYTES, "source-bytes") && Encodes(DEPENDENCY_LOCK, "dependency-lock")
    ensures Encodes(PUBLIC_TOOL_SCHEMA, "public-tool-schema")
  {
  }

  function FieldBytes(f: Field): Bytes {
    BigEndian(|f.tag|, 4) + f.tag + BigEndian(|f.value|, 8) + f.value
  }

  function FieldsBytes(fields: seq<Field>): Bytes {
    if |fields| == 0 then [] else FieldBytes(fields[0]) + FieldsBytes(fields[1..])
  }

  function FileFields(files: seq<SourceFile>): seq<Field> {
    if |files| == 0 then []
    else [Field(SOURCE_PATH, files[0].path), Field(SOURCE_BYTES, files[0].content)] + FileFields(files[1..])
  }

  function InputFields(inputs: Inputs): seq<Field> {
    [Field(ALGORITHM, Decimal(inputs.algorithm))] + FileFields(inputs.files)
    + [Field(DEPENDENCY_LOCK, inputs.lockDigest), Field(PUBLIC_TOOL_SCHEMA, inputs.schema)]
  }

  function Stream(inputs: Inputs): Bytes { FieldsBytes(InputFields(inputs)) }

  // hashlib's object: it has seen exactly the bytes fed to it.
  class Digest {
    var stream: Bytes

    constructor ()
      ensures stream == []
    {
      stream := [];
    }

    method Update(value: Bytes)
      modifies this
      ensures stream == old(stream) + value
    {
      stream := stream + value;
    }
  }

  // _update_field
  method UpdateField(digest: Digest, tag: Bytes, value: Bytes)
    modifies digest
    ensures digest.stream == old(digest.stream) + FieldBytes(Field(tag, value))
  {
    digest.Update(BigEndian(|tag|, 4));
    digest.Update(tag);
    digest.Update(BigEndian(|value|, 8));
    digest.Update(value);
  }

  lemma Associates(a: Bytes, b: Bytes, c: Bytes)
    ensures a + (b + c) == a + b + c
  {
  }

  lemma {:induction false} FieldsBytesAppend(a: seq<Field>, b: seq<Field>)
    ensures FieldsBytes(a + b) == FieldsBytes(a) + FieldsBytes(b)
  {
    if |a| == 0 {
      assert a + b == b;
    } else {
      FieldsBytesAppend(a[1..], b);
      assert (a + b)[1..] == a[1..] + b;
      Associates(FieldBytes(a[0]), FieldsBytes(a[1..]), FieldsBytes(b));
    }
  }

  lemma {:induction false} FileFieldsAppend(files: seq<SourceFile>, last: SourceFile)
    ensures FileFields(files + [last]) ==
            FileFields(files) + [Field(SOURCE_PATH, last.path), Field(SOURCE_BYTES, last.content)]
  {
    if |files| > 0 {
      FileFieldsAppend(files[1..], last);
      assert (files + [last])[1..] == files[1..] + [last];
    } else {
      assert files + [last] == [last];
      assert FileFields([last][1..]) == [];
    }
  }

  // compute_build_identity, up to the final digest of the stream.
  method ComputeBuildIdentity(inputs: Inputs) returns (stream: Option<Bytes>)
    ensures stream.None? <==> inputs.algorithm == 0 || |inputs.schema| == 0 || |inputs.files| == 0
    ensures stream.Some? ==> stream.value == Stream(inputs)
  {
    if inputs.algorithm == 0 || |inputs.schema| == 0 || |inputs.files| == 0 { return None; }
    var digest := new Digest();
    ghost var fields := [Field(ALGORITHM, Decimal(inputs.algorithm))];
    UpdateField(digest, ALGORITHM, Decimal(inputs.algorithm));
    assert digest.stream == FieldsBytes(fields) by {
      FieldsBytesAppend([], fields);
      assert FieldsBytes(fields[1..]) == [];
    }
    ghost var start := fields;
    for i := 0 to |inputs.files|
      invariant fields == start + FileFields(inputs.files[..i])
      invariant digest.stream == FieldsBytes(fields)
    {
      var file := inputs.files[i];
      FieldFed(digest.stream, fields, Field(SOURCE_PATH, file.path));
      UpdateField(digest, SOURCE_PATH, file.path);
      FieldFed(digest.stream, fields + [Field(SOURCE_PATH, file.path)], Field(SOURCE_BYTES, file.content));
      UpdateField(digest, SOURCE_BYTES, file.content);
      fields := fields + [Field(SOURCE_PATH, file.path)] + [Field(SOURCE_BYTES, file.content)];
      assert inputs.files[..i + 1] == inputs.files[..i] + [file];
      FileFieldsAppend(inputs.files[..i], file);
    }
    assert inputs.files[..|inputs.files|] == inputs.files;
    FieldFed(digest.stream, fields, Field(DEPENDENCY_LOCK, inputs.lockDigest));
    UpdateField(digest, DEPENDENCY_LOCK, inputs.lockDigest);
    fields := fields + [Field(DEPENDENCY_LOCK, inputs.lockDigest)];
    FieldFed(digest.stream, fields, Field(PUBLIC_TOOL_SCHEMA, inputs.schema));
    UpdateField(digest, PUBLIC_TOOL_SCHEMA, inputs.schema);
    fields := fields + [Field(PUBLIC_TOOL_SCHEMA, inputs.schema)];
    assert fields == InputFields(inputs);
    stream := Some(digest.stream);
  }

  lemma FieldFed(stream: Bytes, fields: seq<Field>, f: Field)
    requires stream == FieldsBytes(fields)
    ensures stream + FieldBytes(f) == FieldsBytes(fields + [f])
  {
    FieldsBytesAppend(fields, [f]);
    assert FieldsBytes([f][1..]) == [];
  }

  // --- the decoder --------------------------------------------------------------------------

  // Reads one field from the front of a stream.
  function DecodeField(s: Bytes): Option<(Field, Bytes)> {
    if |s| < 4 then None
    else
      var n := FromBigEndian(s[..4]);
      if |s| < 4 + n + 8 then None
      else
        var m := FromBigEndian(s[4 + n..4 + n + 8]);
        if |s| < 4 + n + 8 + m then None
        else Some((Field(s[4..4 + n], s[4 + n + 8..4 + n + 8 + m]), s[4 + n + 8 + m..]))
  }

  function DecodeFields(s: Bytes): Option<seq<Field>>
    decreases |s|
  {
    if |s| == 0 then Some([])
    else
      var first := DecodeField(s);
      if first.None? then None
      else
        var rest := DecodeFields(first.value.1);
        if rest.None? then None else Some([first.value.0] + rest.value)
  }

  function DecodeFiles(fields: seq<Field>): Option<seq<SourceFile>> {
    if |fields| == 0 then Some([])
    else if |fields| == 1 || fields[0].tag != SOURCE_PATH || fields[1].tag != SOURCE_BYTES then None
    else
      var rest := DecodeFiles(fields[2..]);
      if rest.None? then None else Some([SourceFile(fields[0].value, fields[1].value)] + rest.value)
  }

  function DecodeInputs(fields: seq<Field>): Option<Inputs> {
    var n := |fields|;
    if n < 3 || FromDecimal(fields[0].value) < 0 then None
    else
      var files := DecodeFiles(fields[1..n - 2]);
      if files.None? then None
      else Some(Inputs(FromDecimal(fields[0].value), files.value, fields[n - 2].value, fields[n - 1].value))
  }

  function DecodeStream(s: Bytes): Option<Inputs> {
    var fields := DecodeFields(s);
    if fields.None? then None else DecodeInputs(fields.value)
  }

  ghost predicate Fits(f: Field) { |f.tag| < Power(256, 4) && |f.value| < Power(256, 8) }

  // Every value that is fed fits its eight-byte length.
  ghost predicate AllFit(inputs: Inputs) {
    forall i :: 0 <= i < |InputFields(inputs)| ==> Fits(InputFields(inputs)[i])
  }

  lemma FieldRoundTrip(f: Field, rest: Bytes)
    requires Fits(f)
    ensures DecodeField(FieldBytes(f) + rest) == Some((f, rest))
  {
    var s := FieldBytes(f) + rest;
    var n, m := |f.tag|, |f.value|;
    BigEndianRoundTrip(n, 4);
    BigEndianRoundTrip(m, 8);
    assert s[..4] == BigEndian(n, 4);
    assert s[4..4 + n] == f.tag;
    assert s[4 + n..4 + n + 8] == BigEndian(m, 8);
    assert s[4 + n + 8..4 + n + 8 + m] == f.value;
    assert s[4 + n + 8 + m..] == rest;
  }

  lemma {:induction false} FieldsRoundTrip(fields: seq<Field>)
    requires forall i :: 0 <= i < |fields| ==> Fits(fields[i])
    ensures DecodeFields(FieldsBytes(fields)) == Some(fields)
  {
    if |fields| > 0 {
      FieldsRoundTrip(fields[1..]);
      FieldRoundTrip(fields[0], FieldsBytes(fields[1..]));
      assert [fields[0]] + fields[1..] == fields;
    }
  }

  lemma {:induction false} FilesRoundTrip(files: seq<SourceFile>)
    ensures DecodeFiles(FileFields(files)) == Some(files)
  {
    if |files| > 0 {
      FilesRoundTrip(files[1..]);
      assert FileFields(files)[2..] == FileFields(files[1..]);
      assert [SourceFile(files[0].path, files[0].content)] + files[1..] == files;
    }
  }

  // The decoder recovers every input from the stream.
  lemma StreamRoundTrip(inputs: Inputs)
    requires AllFit(inputs)
    ensures DecodeStream(Stream(inputs)) == Some(inputs)
  {
    var fields := InputFields(inputs);
    FieldsRoundTrip(fields);
    DecimalRoundTrip(inputs.algorithm);
    FilesRoundTrip(inputs.files);
    assert fields[1..|fields| - 2] == FileFields(inputs.files);
  }

  // Equal streams mean equal inputs, whatever the number and size of files.
  lemma EqualStreamsEqualInputs(a: Inputs, b: Inputs)
    requires AllFit(a) && AllFit(b) && Stream(a) == Stream(b)
    ensures a == b
  {
    StreamRoundTrip(a);
    StreamRoundTrip(b);
  }

  // --- the dependency lock digest -----------------------------------------------------------

  const UV_LOCK: Bytes := [117, 118, 46, 108, 111, 99, 107]
  const PACKAGE_LOCK: Bytes := [112, 97, 99, 107, 97, 103, 101, 45, 108, 111, 99, 107, 46, 106, 115, 111, 110]

  // What separates the two contents: a NUL, the second name, a NUL.
  const BETWEEN: Bytes := [0] + PACKAGE_LOCK + [0]

  function LockStream(uvLock: Bytes, packageLock: Bytes): Bytes {
    UV_LOCK + [0] + uvLock + BETWEEN + packageLock + [0]
  }

  // dependency_lock_digest, up to the final digest of the stream; a missing file is refused.
  method DependencyLockStream(contents: seq<Option<Bytes>>) returns (stream: Option<Bytes>)
    requires |contents| == 2
    ensures stream.None? <==> contents[0].None? || contents[1].None?
    ensures stream.Some? ==> stream.value == LockStream(contents[0].value, contents[1].value)
  {
    var digest := new Digest();
    var names := [UV_LOCK, PACKAGE_LOCK];
    for i := 0 to 2
      invariant forall k :: 0 <= k < i ==> contents[k].Some?
      invariant i == 0 ==> digest.stream == []
      invariant i == 1 ==> digest.stream == UV_LOCK + [0] + contents[0].value + [0]
      invariant i == 2 ==> digest.stream == LockStream(contents[0].value, contents[1].value)
    {
      if contents[i].None? { return None; }
      ghost var before := digest.stream;
      digest.Update(names[i]);
      digest.Update([0]);
      digest.Update(contents[i].value);
      digest.Update([0]);
      assert digest.stream == before + names[i] + [0] + contents[i].value + [0];
    }
    stream := Some(digest.stream);
  }

  // The separator occurs at this place.
  ghost predicate SeparatesAt(s: Bytes, k: nat) { k + |BETWEEN| <= |s| && s[k..k + |BETWEEN|] == BETWEEN }

  // No other two files feed the digest the same bytes.
  ghost predicate Unambiguous(uvLock: Bytes, packageLock: Bytes) {
    forall a, b :: LockStream(a, b) == LockStream(uvLock, packageLock) ==> a == uvLock && b == packageLock
  }

  lemma LockStreamInner(a: Bytes, b: Bytes, c: Bytes, d: Bytes)
    ensures LockStream(a, b) == LockStream(c, d) <==> a + BETWEEN + b == c + BETWEEN + d
  {
    var s, t := a + BETWEEN + b, c + BETWEEN + d;
    var head := UV_LOCK + [0];
    assert LockStream(a, b) == head + s + [0] && LockStream(c, d) == head + t + [0];
    if LockStream(a, b) == LockStream(c, d) {
      assert s == (head + s + [0])[|head|..|head| + |s|] && t == (head + t + [0])[|head|..|head| + |t|];
    }
  }

  /**
   * The lock digest has no length fields, unlike the identity stream: two lock files are the only
   * ones to feed it their bytes exactly when the separator occurs just once between and in them.
   */
  lemma UnambiguousExactlyWhen(uvLock: Bytes, packageLock: Bytes)
    ensures Unambiguous(uvLock, packageLock) <==>
            forall k: nat :: SeparatesAt(uvLock + BETWEEN + packageLock, k) ==> k == |uvLock|
  {
    var s := uvLock + BETWEEN + packageLock;
    if forall k: nat :: SeparatesAt(s, k) ==> k == |uvLock| {
      forall a, b | LockStream(a, b) == LockStream(uvLock, packageLock) ensures a == uvLock && b == packageLock {
        LockStreamInner(a, b, uvLock, packageLock);
        assert s[|a|..|a| + |BETWEEN|] == BETWEEN;
        assert SeparatesAt(s, |a|);
        assert a == s[..|a|] && uvLock == s[..|uvLock|];
        assert b == s[|a| + |BETWEEN|..] && packageLock == s[|uvLock| + |BETWEEN|..];
      }
    }
    if Unambiguous(uvLock, packageLock) {
      forall k: nat | SeparatesAt(s, k) ensures k == |uvLock| {
        var a, b := s[..k], s[k + |BETWEEN|..];
        assert s == a + BETWEEN + b;
        LockStreamInner(a, b, uvLock, packageLock);
      }
    }
  }

  // Two different pairs of lock files with the same stream.
  lemma LockStreamsCollide()
    ensures LockStream([], BETWEEN) == LockStream(BETWEEN, []) && ([], BETWEEN) != (BETWEEN, [])
  {
    LockStreamInner([], BETWEEN, BETWEEN, []);
    assert [] + BETWEEN + BETWEEN == BETWEEN + BETWEEN + [];
  }
}
