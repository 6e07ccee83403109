/** `read_keyfile`: the key file holds one line `<e>, <n>`, two decimal
    numerals split at a comma, the modulus starting two bytes after it. */
module KeyFile {
  import opened Text
  import opened Numerals

  /** The exponent and modulus the decoder raises each block with. */
  datatype PublicKey = PublicKey(exponent: nat, modulus: nat)

  /** Why the key line is refused. */
  datatype KeyError =
    | NoDelimiter      // no comma past the first byte of the line
    | ModulusMissing   // the comma leaves no room for its separator byte

  /** The first line of the key text: every byte before the first newline,
      or the whole text when it has none. */
  function FirstLine(text: seq<byte>): (line: seq<byte>)
    ensures line <= text && NEWLINE !in line
    ensures |line| < |text| ==> text[|line|] == NEWLINE
  {
    text[..FirstIndex(text, NEWLINE)]
  }

  /** Where the delimiter scan leaves `e_length`: the index of the LAST comma
      of the line, or 0 when there is none. A comma at index 0 also leaves 0,
      so both read as "no delimiter". */
  function DelimiterIndex(line: seq<byte>): (k: nat)
    ensures k < |line| || k == 0
    ensures k > 0 ==> line[k] == COMMA
    ensures forall j :: k < j < |line| ==> line[j] != COMMA
    ensures k == 0 ==> forall j :: 0 < j < |line| ==> line[j] != COMMA
  {
    var last := LastIndex(line, COMMA);
    if last < 0 then 0 else last
  }

  /** GMP reads both key fields as decimal numerals: their bytes are digits
      (an empty field leaves the number at 0). */
  predicate KeyFieldsDecimal(text: seq<byte>)
  {
    var line := FirstLine(text);
    var k := DelimiterIndex(line);
    var keylength := FirstIndex(line, NUL);
    0 < k && k + 2 <= keylength ==>
      Digits(line[..k], 10) && Digits(line[k + 2..keylength], 10)
  }

  /** The key the decoder reads from `text`. `keylength` is `strlen` of the
      line, which stops at a NUL byte; the exponent is the `k` bytes before
      the comma and the modulus the `keylength - k - 2` bytes from two past
      it. */
  function ParseKey(text: seq<byte>): Result<PublicKey, KeyError>
    requires KeyFieldsDecimal(text)
  {
    var line := FirstLine(text);
    var k := DelimiterIndex(line);
    var keylength := FirstIndex(line, NUL);
    if k == 0 then Failure(NoDelimiter)
    else if k + 2 > keylength then Failure(ModulusMissing)
    else Success(PublicKey(Value(line[..k], 10), Value(line[k + 2..keylength], 10)))
  }

  /** The byte loop of `read_keyfile`: copies the key text into `keybuffer`
      up to the first newline, recording in `eLength` the index of every
      comma it copies. */
  method ReadKeyLine(text: seq<byte>) returns (keybuffer: seq<byte>, eLength: nat)
    ensures keybuffer == FirstLine(text)
    ensures eLength == DelimiterIndex(keybuffer)
  {
    keybuffer, eLength := [], 0;
    var i := 0;
    while i < |text|
      invariant 0 <= i <= |text|
      invariant keybuffer == text[..i]
      invariant forall j :: 0 <= j < i ==> text[j] != NEWLINE
      invariant eLength == DelimiterIndex(keybuffer)
    {
      var c := text[i];
      if c == NEWLINE {
        break;
      }
      assert (keybuffer + [c])[..i] == keybuffer;
      keybuffer := keybuffer + [c];
      if c == COMMA {
        eLength := i;
      }
      i := i + 1;
    }
    FirstIndexUnique(text, NEWLINE, i);
  }

  /** `read_keyfile` after the file is read: split the line at `eLength` and
      convert both fields. */
  method ReadKeyFile(text: seq<byte>) returns (key: Result<PublicKey, KeyError>)
    requires KeyFieldsDecimal(text)
    ensures key == ParseKey(text)
  {
    var keybuffer, eLength := ReadKeyLine(text);
    if eLength == 0 {
      return Failure(NoDelimiter);
    }
    var keylength := FirstIndex(keybuffer, NUL);
    if eLength + 2 > keylength {
      return Failure(ModulusMissing);
    }
    var eStr := keybuffer[..eLength];
    var nStr := keybuffer[eLength + 2..keylength];
    key := Success(PublicKey(Value(eStr, 10), Value(nStr, 10)));
  }

  /** The line is refused for want of a delimiter exactly when no comma
      stands past its first byte. */
  lemma RejectsWithoutDelimiter(text: seq<byte>)
    requires KeyFieldsDecimal(text)
    ensures ParseKey(text) == Failure(NoDelimiter) <==>
      forall j :: 0 < j < |FirstLine(text)| ==> FirstLine(text)[j] != COMMA
  {
    var line := FirstLine(text);
    var k := DelimiterIndex(line);
    if k > 0 {
      assert line[k] == COMMA;
    }
  }

  /** A well-formed line `<e-digits>,<sep><n-digits>`, optionally followed by a
      newline and anything else, yields exactly the two numbers written,
      whatever single byte `sep` follows the comma. */
  lemma AcceptsWellFormedLine(ed: seq<byte>, sep: byte, nd: seq<byte>, rest: seq<byte>)
    requires Digits(ed, 10) && |ed| > 0 && Digits(nd, 10)
    requires sep != NEWLINE && sep != COMMA && sep != NUL
    requires rest == [] || rest[0] == NEWLINE
    ensures KeyFieldsDecimal(ed + [COMMA, sep] + nd + rest)
    ensures ParseKey(ed + [COMMA, sep] + nd + rest) ==
      Success(PublicKey(Value(ed, 10), Value(nd, 10)))
  {
    var line := ed + [COMMA, sep] + nd;
    var text := line + rest;
    SplitWellFormed(ed, sep, nd);
    assert forall j :: 0 <= j < |line| ==> text[j] == line[j];
    FirstIndexUnique(text, NEWLINE, |line|);
    assert FirstLine(text) == line;
    assert Digits(line[..|ed|], 10) && Digits(line[|ed| + 2..|line|], 10);
  }

  /** The fields and the delimiter of a well-formed line, found where they
      were put. */
  lemma SplitWellFormed(ed: seq<byte>, sep: byte, nd: seq<byte>)
    requires Digits(ed, 10) && |ed| > 0 && Digits(nd, 10)
    requires sep != NEWLINE && sep != COMMA && sep != NUL
    ensures forall j :: 0 <= j < |ed + [COMMA, sep] + nd| ==>
      (ed + [COMMA, sep] + nd)[j] != NEWLINE
    ensures FirstIndex(ed + [COMMA, sep] + nd, NUL) == |ed + [COMMA, sep] + nd|
    ensures DelimiterIndex(ed + [COMMA, sep] + nd) == |ed|
    ensures (ed + [COMMA, sep] + nd)[..|ed|] == ed
    ensures (ed + [COMMA, sep] + nd)[|ed| + 2..|ed + [COMMA, sep] + nd|] == nd
  {
    var line := ed + [COMMA, sep] + nd;
    assert forall j :: 0 <= j < |line| ==> line[j] != NEWLINE && line[j] != NUL by {
      forall j | 0 <= j < |line|
        ensures line[j] != NEWLINE && line[j] != NUL
      {
        if j < |ed| { assert line[j] == ed[j]; }
        else if j >= |ed| + 2 { assert line[j] == nd[j - |ed| - 2]; }
      }
    }
    FirstIndexUnique(line, NUL, |line|);
    assert forall j :: |ed| < j < |line| ==> line[j] != COMMA by {
      forall j | |ed| < j < |line|
        ensures line[j] != COMMA
      {
        if j >= |ed| + 2 { assert line[j] == nd[j - |ed| - 2]; }
      }
    }
    var k := DelimiterIndex(line);
    assert line[|ed|] == COMMA;
    assert k == |ed|;
  }

  /** The key text `"<e>, <n>"` that GMP would write for a key is read back as
      that key. */
  lemma ReadsBackWrittenKey(e: nat, n: nat, rest: seq<byte>)
    requires rest == [] || rest[0] == NEWLINE
    ensures KeyFieldsDecimal(Render(e, 10) + [COMMA, SPACE] + Render(n, 10) + rest)
    ensures ParseKey(Render(e, 10) + [COMMA, SPACE] + Render(n, 10) + rest) ==
      Success(PublicKey(e, n))
  {
    AcceptsWellFormedLine(Render(e, 10), SPACE, Render(n, 10), rest);
    ValueOfRender(e, 10);
    ValueOfRender(n, 10);
  }

  /** Only the first line is read: whatever follows its newline is ignored. */
  lemma FirstLineOnly(line: seq<byte>, tail: seq<byte>)
    requires NEWLINE !in line
    requires KeyFieldsDecimal(line)
    ensures KeyFieldsDecimal(line + [NEWLINE] + tail)
    ensures ParseKey(line + [NEWLINE] + tail) == ParseKey(line)
  {
    FirstIndexUnique(line + [NEWLINE] + tail, NEWLINE, |line|);
    FirstIndexUnique(line, NEWLINE, |line|);
    assert FirstLine(line + [NEWLINE] + tail) == line;
    assert FirstLine(line) == line;
  }
}
