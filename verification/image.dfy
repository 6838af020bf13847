/** The recipe image field that accepts an inline data URL.

    The field recognises a narrow subset of the `data:` URL syntax of
    section 3 of RFC 2397: a text value starting with `data:image` is split
    on `;base64,`, the media type before the separator names the file
    extension (its text after the last `/`), and the text after it is the
    payload. Anything else is handed to the ordinary image field unchanged.
    The base64 decoding of the payload and the image-content check are not
    part of this model: the payload is kept as opaque text. */
module Base64Image {
  import opened Results

  const DataImagePrefix: string := "data:image"
  const Separator: string := ";base64,"
  const TempStem: string := "temp."

  datatype ImageFile = ImageFile(name: string, content: string)

  /** What a client may put in the image field: text, or an uploaded file. */
  datatype ImageInput = Text(text: string) | Upload(file: ImageFile)

  predicate StartsWith(s: string, prefix: string) {
    |prefix| <= |s| && s[..|prefix|] == prefix
  }

  predicate EndsWith(s: string, suffix: string) {
    |suffix| <= |s| && s[|s| - |suffix|..] == suffix
  }

  /** `sep` occurs in `s` starting at index `j`. */
  predicate OccursAt(s: string, sep: string, j: nat) {
    j + |sep| <= |s| && s[j..j + |sep|] == sep
  }

  /** Python's `s.find(sep, start)`: the first occurrence at or after `start`. */
  function Find(s: string, sep: string, start: nat): (r: Option<nat>)
    requires |sep| > 0
    ensures r.Some? ==> start <= r.value && OccursAt(s, sep, r.value)
    ensures r.Some? ==> forall j: nat | start <= j < r.value :: !OccursAt(s, sep, j)
    ensures r.None? ==> forall j: nat | start <= j :: !OccursAt(s, sep, j)
    decreases |s| - start
  {
    if start + |sep| > |s| then None
    else if s[start..start + |sep|] == sep then Some(start)
    else Find(s, sep, start + 1)
  }

  /** Python's two-way unpacking `a, b = s.split(sep)`: it succeeds only
      when scanning left to right finds exactly one occurrence. */
  function SplitInTwo(s: string, sep: string): (r: Option<(string, string)>)
    requires |sep| > 0
    ensures r.Some? ==> s == r.value.0 + sep + r.value.1
    ensures r.Some? ==> forall j: nat | j < |r.value.0| :: !OccursAt(s, sep, j)
    ensures r.Some? ==> forall j: nat | |r.value.0| + |sep| <= j :: !OccursAt(s, sep, j)
    ensures r.None? <==>
              || (forall i: nat :: !OccursAt(s, sep, i))
              || (exists i: nat, j: nat :: i + |sep| <= j && OccursAt(s, sep, i) && OccursAt(s, sep, j))
  {
    match Find(s, sep, 0)
    case None => None
    case Some(i) =>
      match Find(s, sep, i + |sep|)
      case Some(j) => None
      case None =>
        assert s == s[..i] + sep + s[i + |sep|..];
        Some((s[..i], s[i + |sep|..]))
  }

  /** Python's `s.split(c)[-1]`: the text after the last `c`, or all of `s`
      when `c` does not occur. */
  function AfterLast(s: string, c: char): (r: string)
    ensures |r| <= |s| && r == s[|s| - |r|..]
    ensures c !in r
    ensures |r| < |s| ==> s[|s| - |r| - 1] == c
  {
    if |s| == 0 then ""
    else if s[|s| - 1] == c then ""
    else AfterLast(s[..|s| - 1], c) + [s[|s| - 1]]
  }

  /** The file a data URL stands for: named `temp.` plus the last segment
      of the media type, holding the payload. */
  function Named(format: string, payload: string): (f: ImageFile)
    ensures StartsWith(f.name, TempStem) && '/' !in f.name[|TempStem|..]
    ensures f.content == payload
  {
    var name := TempStem + AfterLast(format, '/');
    assert name[|TempStem|..] == AfterLast(format, '/');
    ImageFile(name, payload)
  }

  /** The field's own conversion, before the ordinary image field sees the
      value: a `data:image` text becomes an uploaded file named
      `temp.<extension>`; a text with no `;base64,` or with more than one
      makes the unpacking raise, which nothing catches. */
  function Decode(data: ImageInput): (r: Result<ImageInput>)
    ensures !(data.Text? && StartsWith(data.text, DataImagePrefix)) ==> r == Ok(data)
    ensures data.Text? && StartsWith(data.text, DataImagePrefix) ==>
              (r.Err? <==> SplitInTwo(data.text, Separator).None?)
    ensures r.Err? ==> r.error == ServerError
    ensures r.Ok? && r.value != data ==>
              && data.Text? && r.value.Upload?
              && StartsWith(r.value.file.name, TempStem)
              && '/' !in r.value.file.name[|TempStem|..]
              && EndsWith(data.text, Separator + r.value.file.content)
    ensures data.Text? && StartsWith(data.text, DataImagePrefix) && SplitInTwo(data.text, Separator).Some? ==>
              var (format, payload) := SplitInTwo(data.text, Separator).value;
              r == Ok(Upload(ImageFile(TempStem + AfterLast(format, '/'), payload)))
  {
    if data.Text? && StartsWith(data.text, DataImagePrefix) then
      match SplitInTwo(data.text, Separator)
      case None => Err(ServerError)
      case Some((format, payload)) =>
        assert data.text[|data.text| - |Separator + payload|..] == Separator + payload;
        Ok(Upload(Named(format, payload)))
    else
      Ok(data)
  }

  /** The value the serializer stores: the ordinary image field accepts an
      uploaded file and rejects any text, so text that was not converted
      into a file is refused with a 400. */
  function FieldValue(data: ImageInput): (r: Result<ImageFile>)
    ensures data.Upload? ==> r == Ok(data.file)
    ensures data.Text? && !StartsWith(data.text, DataImagePrefix) ==>
              r == Err(BadRequest(NotAFile))
    ensures r.Ok? && data.Text? ==> StartsWith(r.value.name, TempStem)
    ensures data.Text? && StartsWith(data.text, DataImagePrefix) ==>
              (r == Err(ServerError) <==> SplitInTwo(data.text, Separator).None?)
    ensures data.Text? && StartsWith(data.text, DataImagePrefix) && SplitInTwo(data.text, Separator).Some? ==>
              var (format, payload) := SplitInTwo(data.text, Separator).value;
              r == Ok(ImageFile(TempStem + AfterLast(format, '/'), payload))
  {
    var converted :- Decode(data);
    match converted
    case Upload(file) => Ok(file)
    case Text(_) => Err(BadRequest(NotAFile))
  }

  /** The data URL a client sends for an image of the given media subtype. */
  function DataUrl(subtype: string, payload: string): string {
    DataImagePrefix + "/" + subtype + Separator + payload
  }

  lemma NoOccurrenceWithoutSemicolon(s: string, j: nat)
    requires j < |s| && s[j] != ';'
    ensures !OccursAt(s, Separator, j)
  {
  }

  lemma {:induction false} AfterLastOfLastSegment(u: string, t: string, c: char)
    requires |u| > 0 && u[|u| - 1] == c && c !in t
    ensures AfterLast(u + t, c) == t
  {
    var s := u + t;
    var r := AfterLast(s, c);
    assert r == s[|s| - |t|..] == t;
  }

  /** A well-formed data URL, whose subtype holds no `/` and neither part
      holds a `;`, converts to a file named after the subtype that carries
      the payload. */
  lemma {:induction false} DataUrlRoundTrip(subtype: string, payload: string)
    requires '/' !in subtype && ';' !in subtype && ';' !in payload
    ensures Decode(Text(DataUrl(subtype, payload)))
            == Ok(Upload(ImageFile(TempStem + subtype, payload)))
  {
    var head := DataImagePrefix + "/" + subtype;
    var s := DataUrl(subtype, payload);
    var p := |head|;
    assert s == head + Separator + payload;
    assert s[..|DataImagePrefix|] == DataImagePrefix;
    forall j: nat | j < |s| && j != p
      ensures s[j] != ';'
    {
      if j < p {
        assert s[j] == head[j];
        if j >= |DataImagePrefix| + 1 {
          assert head[j] == subtype[j - |DataImagePrefix| - 1];
        }
      } else if j < p + |Separator| {
        assert s[j] == Separator[j - p];
      } else {
        assert s[j] == payload[j - p - |Separator|];
      }
    }
    assert OccursAt(s, Separator, p) by {
      assert s[p..p + |Separator|] == Separator;
    }
    var first := Find(s, Separator, 0);
    assert first == Some(p) by {
      if first.Some? && first.value != p {
        NoOccurrenceWithoutSemicolon(s, first.value);
      }
    }
    var second := Find(s, Separator, p + |Separator|);
    assert second.None? by {
      if second.Some? {
        NoOccurrenceWithoutSemicolon(s, second.value);
      }
    }
    assert s[..p] == head;
    assert s[p + |Separator|..] == payload;
    assert SplitInTwo(s, Separator) == Some((head, payload));
    AfterLastOfLastSegment(DataImagePrefix + "/", subtype, '/');
  }
}
