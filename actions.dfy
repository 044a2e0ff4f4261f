/**
 * The data transforms of the server actions (`app/actions.ts`): listing the
 * stored projects, summarising them for the listing, choosing the slug a
 * project is saved under, and naming an uploaded image.
 *
 * The file system is a parameter: the directory listing `readdir` returns
 * (`None` when it fails) and the parsed documents by file name (a name that
 * is missing, unreadable or not valid JSON is absent). The clock is the
 * `now` parameter.
 */
module Actions {
  import opened Wrappers
  import opened Lists
  import opened Text
  import opened DocTypes
  import opened Slug

  /** The extension of a stored project. */
  const JsonExt: string := ".json"

  // Listing.

  /** The names of the listing that end with `.json`, in listing order. */
  function JsonFiles(names: seq<string>): (files: seq<string>)
    ensures Subsequence(files, names)
    ensures forall f :: f in files ==> f in names && EndsWith(f, JsonExt)
    ensures forall f :: f in names && EndsWith(f, JsonExt) ==> f in files
  {
    if names == [] then []
    else
      var rest := JsonFiles(names[1..]);
      assert forall f :: f in names ==> f == names[0] || f in names[1..];
      if EndsWith(names[0], JsonExt) then [names[0]] + rest else rest
  }

  /** The slug `getProjects` derives from a file name: `replace('.json', '')` drops the first `.json`. */
  function SlugAsWritten(file: string): string {
    ReplaceFirst(file, JsonExt, "")
  }

  /** The slug of a stored file: the name without its `.json` suffix. */
  function SlugOfFile(file: string): (slug: string)
    requires EndsWith(file, JsonExt)
    ensures slug + JsonExt == file
  {
    file[..|file| - |JsonExt|]
  }

  /** The slugs as written of a list of file names. */
  function SlugsAsWritten(files: seq<string>): (slugs: seq<string>)
    ensures |slugs| == |files| && forall i :: 0 <= i < |files| ==> slugs[i] == SlugAsWritten(files[i])
  {
    if files == [] then [] else [SlugAsWritten(files[0])] + SlugsAsWritten(files[1..])
  }

  /** The slugs of a list of `.json` file names. */
  function SlugsOfFiles(files: seq<string>): (slugs: seq<string>)
    requires forall f :: f in files ==> EndsWith(f, JsonExt)
    ensures |slugs| == |files| && forall i :: 0 <= i < |files| ==> slugs[i] + JsonExt == files[i]
  {
    if files == [] then []
    else
      assert files[0] in files;
      [SlugOfFile(files[0])] + SlugsOfFiles(files[1..])
  }

  /** `getProjects` as written: the first `.json` is removed from each `.json` file name. */
  function ProjectSlugsAsWritten(listing: Option<seq<string>>): (slugs: seq<string>)
    ensures listing.None? ==> slugs == []
    ensures listing.Some? ==>
      (|slugs| == |JsonFiles(listing.value)| &&
       forall i :: 0 <= i < |slugs| ==> slugs[i] == SlugAsWritten(JsonFiles(listing.value)[i]))
  {
    match listing
    case None => []
    case Some(names) => SlugsAsWritten(JsonFiles(names))
  }

  /**
   * `getProjects`, with the `.json` suffix removed: every listed slug names
   * back the file it came from, and a failed listing lists nothing.
   */
  function ProjectSlugs(listing: Option<seq<string>>): (slugs: seq<string>)
    ensures listing.None? ==> slugs == []
    ensures listing.Some? ==>
      (|slugs| == |JsonFiles(listing.value)| &&
       forall i :: 0 <= i < |slugs| ==> slugs[i] + JsonExt == JsonFiles(listing.value)[i])
  {
    match listing
    case None => []
    case Some(names) => SlugsOfFiles(JsonFiles(names))
  }

  /** `getProjectData`: the document stored under `slug + ".json"`, or nothing. */
  function LoadProject(docs: map<string, DocProject>, slug: string): (data: Option<DocProject>)
    ensures data.Some? <==> slug + JsonExt in docs
    ensures data.Some? ==> data.value == docs[slug + JsonExt]
  {
    if slug + JsonExt in docs then Some(docs[slug + JsonExt]) else None
  }

  /** A name without a `.` loses exactly its appended `.json` under `replace('.json', '')`. */
  lemma SlugAsWrittenOfPlainName(slug: string)
    requires '.' !in slug
    ensures SlugAsWritten(slug + JsonExt) == slug
  {
    var s := slug + JsonExt;
    var i := IndexOf(s, JsonExt);
    assert JsonExt <= s[|slug|..];
    forall k | 0 <= k < |slug|
      ensures !(JsonExt <= s[k..])
    {
      assert s[k] == slug[k] && slug[k] in slug;
    }
    assert s[..|slug|] == slug && s[|slug| + |JsonExt|..] == [];
  }

  /** On a name whose only `.json` is its suffix, the listing as written and the corrected one agree. */
  lemma ListingsAgreeOnPlainNames(listing: seq<string>)
    requires forall f :: f in listing && EndsWith(f, JsonExt) ==> '.' !in SlugOfFile(f)
    ensures ProjectSlugsAsWritten(Some(listing)) == ProjectSlugs(Some(listing))
  {
    var files := JsonFiles(listing);
    forall i | 0 <= i < |files|
      ensures SlugAsWritten(files[i]) == SlugOfFile(files[i])
    {
      var f := files[i];
      assert f in files;
      SlugAsWrittenOfPlainName(SlugOfFile(f));
    }
  }

  /**
   * The listing as written mislabels a file with `.json` inside its name:
   * `a.jsonx.json` is listed as `ax.json`, whose file `ax.json.json` is not
   * the stored one, so the project cannot be loaded from the listing.
   */
  lemma ListingAsWrittenLosesFile(d: DocProject)
    ensures ProjectSlugsAsWritten(Some(["a.jsonx.json"])) == ["ax.json"]
    ensures LoadProject(map["a.jsonx.json" := d], "ax.json").None?
    ensures ProjectSlugs(Some(["a.jsonx.json"])) == ["a.jsonx"]
    ensures LoadProject(map["a.jsonx.json" := d], "a.jsonx") == Some(d)
  {
    var s: string := "a.jsonx.json";
    DottedNameMisread(s);
    assert JsonFiles([s]) == [s] by {
      assert |[s][1..]| == 0;
    }
    WrongFileName("ax.json", s);
  }

  /** The file the misread slug names is not the stored one: they differ at the second character. */
  lemma WrongFileName(w: string, s: string)
    requires w == "ax.json" && s == "a.jsonx.json"
    ensures w + JsonExt != s
  {
    assert (w + JsonExt)[1] == w[1] == 'x';
    assert s[1] == '.';
  }

  /** `a.jsonx.json` is a `.json` file whose slug is `a.jsonx`, but `replace` turns it into `ax.json`. */
  lemma DottedNameMisread(s: string)
    requires s == "a.jsonx.json"
    ensures EndsWith(s, JsonExt) && SlugOfFile(s) == "a.jsonx"
    ensures SlugAsWritten(s) == "ax.json"
  {
    assert s[|s| - 5..] == ".json";
    assert JsonExt <= s[1..] by {
      assert s[1..][..5] == ".json";
    }
    assert !(JsonExt <= s[0..]) by {
      assert s[0] == 'a';
    }
    assert IndexOf(s, JsonExt) == 1;
    assert s[..1] == "a" && s[6..] == "x.json";
    assert s[..|s| - 5] == "a.jsonx";
  }

  // Summaries.

  /** JavaScript truthiness of an optional string: present and non-empty. */
  predicate Truthy(s: Option<string>) {
    s.Some? && s.value != ""
  }

  /** `slug.replace(/[-_]/g, ' ')`: every `-` and `_` becomes a space. */
  function Unslug(slug: string): (title: string)
    ensures |title| == |slug|
    ensures forall i :: 0 <= i < |slug| ==>
      title[i] == (if slug[i] == '-' || slug[i] == '_' then ' ' else slug[i])
  {
    if slug == [] then []
    else [if slug[0] == '-' || slug[0] == '_' then ' ' else slug[0]] + Unslug(slug[1..])
  }

  /** The listing card of a loaded project: its metadata, with a fallback for each missing field. */
  function Summarize(slug: string, data: DocProject): (s: ProjectSummary)
    ensures s.slug == slug && s.tags.Some?
    ensures s.description != "" && s.projectType != ""
    ensures data.metadata.Some? && Truthy(data.metadata.value.title) ==> s.title == data.metadata.value.title.value
    ensures !(data.metadata.Some? && Truthy(data.metadata.value.title)) ==>
      s.title == Unslug(slug) && '-' !in s.title && '_' !in s.title
    ensures data.metadata.Some? && Truthy(data.metadata.value.description) ==>
      s.description == data.metadata.value.description.value
    ensures !(data.metadata.Some? && Truthy(data.metadata.value.description)) ==>
      s.description == "Documentation for " + slug
    ensures data.metadata.Some? && Truthy(data.metadata.value.projectType) ==>
      s.projectType == data.metadata.value.projectType.value
    ensures !(data.metadata.Some? && Truthy(data.metadata.value.projectType)) ==> s.projectType == "General"
    ensures data.metadata.Some? && data.metadata.value.tags.Some? ==> s.tags == data.metadata.value.tags
    ensures !(data.metadata.Some? && data.metadata.value.tags.Some?) ==> s.tags == Some([])
  {
    var meta := data.metadata;
    ProjectSummary(
      slug,
      if meta.Some? && Truthy(meta.value.title) then meta.value.title.value else Unslug(slug),
      if meta.Some? && Truthy(meta.value.description) then meta.value.description.value
      else "Documentation for " + slug,
      if meta.Some? && Truthy(meta.value.projectType) then meta.value.projectType.value else "General",
      Some(if meta.Some? && meta.value.tags.Some? then meta.value.tags.value else []))
  }

  /** The slugs of a list of summaries. */
  function SlugsOf(summaries: seq<ProjectSummary>): seq<string> {
    if summaries == [] then [] else [summaries[0].slug] + SlugsOf(summaries[1..])
  }

  /**
   * The summaries of the projects named by `slugs`: those that fail to load
   * are dropped, the others keep slug order.
   */
  function Summaries(slugs: seq<string>, docs: map<string, DocProject>): (r: seq<ProjectSummary>)
    ensures Subsequence(SlugsOf(r), slugs)
    ensures forall s :: s in r ==>
      LoadProject(docs, s.slug).Some? && s == Summarize(s.slug, LoadProject(docs, s.slug).value)
    ensures forall i :: 0 <= i < |slugs| && LoadProject(docs, slugs[i]).Some? ==>
      Summarize(slugs[i], LoadProject(docs, slugs[i]).value) in r
    ensures forall t :: multiset(SlugsOf(r))[t] == if LoadProject(docs, t).Some? then multiset(slugs)[t] else 0
  {
    if slugs == [] then []
    else
      var rest := Summaries(slugs[1..], docs);
      assert forall i :: 1 <= i < |slugs| ==> slugs[i] == slugs[1..][i - 1];
      assert slugs == [slugs[0]] + slugs[1..];
      match LoadProject(docs, slugs[0])
      case None => rest
      case Some(data) =>
        var r := [Summarize(slugs[0], data)] + rest;
        assert r[1..] == rest;
        assert SlugsOf(r) == [slugs[0]] + SlugsOf(rest);
        r
  }

  /**
   * `getAllProjectsMetadata` as written: the summaries of the projects the
   * listing as written names, each one loaded from the file its slug names.
   */
  function AllProjectsMetadata(listing: Option<seq<string>>, docs: map<string, DocProject>): (r: seq<ProjectSummary>)
    ensures listing.None? ==> r == []
    ensures Subsequence(SlugsOf(r), ProjectSlugsAsWritten(listing))
    ensures forall s :: s in r ==> s.slug + JsonExt in docs && s == Summarize(s.slug, docs[s.slug + JsonExt])
    ensures forall t ::
      multiset(SlugsOf(r))[t] == if t + JsonExt in docs then multiset(ProjectSlugsAsWritten(listing))[t] else 0
  {
    Summaries(ProjectSlugsAsWritten(listing), docs)
  }

  /** `getAllProjectsMetadata` over the corrected listing, which removes the `.json` suffix. */
  function AllProjectsMetadataCorrected(listing: Option<seq<string>>, docs: map<string, DocProject>):
    (r: seq<ProjectSummary>)
    ensures listing.None? ==> r == []
    ensures Subsequence(SlugsOf(r), ProjectSlugs(listing))
    ensures forall s :: s in r ==> s.slug + JsonExt in docs && s == Summarize(s.slug, docs[s.slug + JsonExt])
    ensures forall t :: multiset(SlugsOf(r))[t] == if t + JsonExt in docs then multiset(ProjectSlugs(listing))[t] else 0
  {
    Summaries(ProjectSlugs(listing), docs)
  }

  /**
   * With the corrected listing, every listed `.json` file that holds a
   * document shows up in the summaries, under its slug.
   */
  lemma StoredProjectsListed(listing: seq<string>, docs: map<string, DocProject>, file: string)
    requires file in listing && EndsWith(file, JsonExt) && file in docs
    ensures Summarize(SlugOfFile(file), docs[file]) in AllProjectsMetadataCorrected(Some(listing), docs)
  {
    var files := JsonFiles(listing);
    var slugs := ProjectSlugs(Some(listing));
    var i :| 0 <= i < |files| && files[i] == file;
    assert slugs[i] + JsonExt == file;
    assert slugs[i] == SlugOfFile(file);
  }

  /**
   * As written, the same holds when no listed `.json` file has a `.` before
   * its suffix, which every slug `slugify` produces satisfies.
   */
  lemma StoredPlainProjectsListed(listing: seq<string>, docs: map<string, DocProject>, file: string)
    requires forall f :: f in listing && EndsWith(f, JsonExt) ==> '.' !in SlugOfFile(f)
    requires file in listing && EndsWith(file, JsonExt) && file in docs
    ensures Summarize(SlugOfFile(file), docs[file]) in AllProjectsMetadata(Some(listing), docs)
  {
    ListingsAgreeOnPlainNames(listing);
    StoredProjectsListed(listing, docs, file);
  }

  /**
   * As written, a stored `a.jsonx.json` drops out of the summaries: its slug
   * `ax.json` loads nothing. The corrected listing summarises it as `a.jsonx`.
   */
  lemma MetadataAsWrittenDropsFile(d: DocProject)
    ensures AllProjectsMetadata(Some(["a.jsonx.json"]), map["a.jsonx.json" := d]) == []
    ensures AllProjectsMetadataCorrected(Some(["a.jsonx.json"]), map["a.jsonx.json" := d]) ==
      [Summarize("a.jsonx", d)]
  {
    ListingAsWrittenLosesFile(d);
  }

  // Saving.

  /** What `saveProject` answers. */
  datatype SaveResult = Saved(slug: string) | Failed(error: string)

  /** The answer, and the stored documents afterwards. */
  datatype SaveOutcome = SaveOutcome(result: SaveResult, docs: map<string, DocProject>)

  /** The message of the error thrown for a new project without a title. */
  const TitleRequired: string := "Error: Title is required to generate slug"

  /**
   * `saveProject`: make sure the data directory exists (`dirError` is the
   * message when that fails), keep the current slug when there is one,
   * otherwise derive it from the metadata title, then write the document
   * (`writeError` is the message when that fails).
   */
  function SaveProject(currentSlug: Option<string>, data: DocProject, docs: map<string, DocProject>,
                       dirError: Option<string>, writeError: Option<string>): (out: SaveOutcome)
    ensures out.result.Failed? ==> out.docs == docs
    ensures dirError.Some? ==> out.result == Failed(dirError.value)
    ensures (dirError.None? && !Truthy(currentSlug) && !(data.metadata.Some? && Truthy(data.metadata.value.title)))
      ==> out.result == Failed(TitleRequired)
    ensures (dirError.None? && writeError.Some? &&
             (Truthy(currentSlug) || (data.metadata.Some? && Truthy(data.metadata.value.title))))
      ==> out.result == Failed(writeError.value)
    ensures (dirError.None? && writeError.None? &&
             (Truthy(currentSlug) || (data.metadata.Some? && Truthy(data.metadata.value.title))))
      ==> out.result.Saved?
    ensures out.result.Saved? && Truthy(currentSlug) ==> out.result.slug == currentSlug.value
    ensures out.result.Saved? && !Truthy(currentSlug) ==>
      data.metadata.Some? && Truthy(data.metadata.value.title) &&
      out.result.slug == Slugify(data.metadata.value.title.value)
    ensures out.result.Saved? ==>
      out.docs == docs[out.result.slug + JsonExt := data] && LoadProject(out.docs, out.result.slug) == Some(data)
  {
    if dirError.Some? then SaveOutcome(Failed(dirError.value), docs)
    else if !Truthy(currentSlug) && !(data.metadata.Some? && Truthy(data.metadata.value.title)) then
      SaveOutcome(Failed(TitleRequired), docs)
    else
      var target := if Truthy(currentSlug) then currentSlug.value else Slugify(data.metadata.value.title.value);
      if writeError.Some? then SaveOutcome(Failed(writeError.value), docs)
      else SaveOutcome(Saved(target), docs[target + JsonExt := data])
  }

  /** Saving an existing project keeps its slug. */
  lemma SaveKeepsExistingSlug(slug: string, data: DocProject, docs: map<string, DocProject>)
    requires slug != ""
    ensures SaveProject(Some(slug), data, docs, None, None).result == Saved(slug)
  {
  }

  /** A new project without a title is refused, and nothing is written. */
  lemma SaveNeedsTitle(currentSlug: Option<string>, data: DocProject, docs: map<string, DocProject>,
                       writeError: Option<string>)
    requires !Truthy(currentSlug)
    requires data.metadata.None? || !Truthy(data.metadata.value.title)
    ensures SaveProject(currentSlug, data, docs, None, writeError) == SaveOutcome(Failed(TitleRequired), docs)
  {
  }

  /**
   * A new project with a title is saved under the slug of its title, and the
   * listing, as written or corrected, lists it back under that slug.
   */
  lemma NewProjectListedBack(title: string, data: DocProject, docs: map<string, DocProject>)
    requires title != "" && data.metadata.Some? && data.metadata.value.title == Some(title)
    ensures var out := SaveProject(None, data, docs, None, None);
      out.result == Saved(Slugify(title)) &&
      SlugOfFile(Slugify(title) + JsonExt) == Slugify(title) &&
      SlugAsWritten(Slugify(title) + JsonExt) == Slugify(title)
  {
    var slug := Slugify(title);
    assert !IsSlugChar('.');
    SlugAsWrittenOfPlainName(slug);
    assert EndsWith(slug + JsonExt, JsonExt) by {
      assert (slug + JsonExt)[|slug|..] == JsonExt;
    }
  }

  // Uploads.

  /** What `uploadImage` answers. */
  datatype UploadResponse = Uploaded(url: string) | UploadError(error: string)

  /** The characters an uploaded file name keeps: ASCII letters, digits, `.` and `-`. */
  predicate IsSafeNameChar(c: char) {
    IsUpper(c) || IsLower(c) || IsDigit(c) || c == '.' || c == '-'
  }

  /** `name.replace(/[^a-zA-Z0-9.-]/g, '')`: drops every other character, keeping the order. */
  function SafeName(name: string): (safe: string)
    ensures forall c :: c in safe ==> IsSafeNameChar(c)
    ensures Subsequence(safe, name)
    ensures forall c :: IsSafeNameChar(c) ==> multiset(safe)[c] == multiset(name)[c]
    ensures (forall c :: c in name ==> IsSafeNameChar(c)) ==> safe == name
  {
    if name == [] then []
    else
      assert forall c :: c in name[1..] ==> c in name;
      assert name == [name[0]] + name[1..];
      var rest := SafeName(name[1..]);
      if IsSafeNameChar(name[0]) then [name[0]] + rest else rest
  }

  /** A decimal digit. */
  function Digit(d: nat): (c: char)
    requires d < 10
    ensures IsDigit(c) && c as int - '0' as int == d
  {
    ('0' as int + d) as char
  }

  /** `String(n)` for a natural number: its decimal digits. */
  function DecimalString(n: nat): (s: string)
    ensures s != [] && forall c :: c in s ==> IsDigit(c)
    ensures s[0] == '0' ==> n == 0
  {
    if n < 10 then [Digit(n)] else DecimalString(n / 10) + [Digit(n % 10)]
  }

  /** The number a string of decimal digits denotes. */
  function DecimalValue(s: string): nat
    requires forall c :: c in s ==> IsDigit(c)
  {
    if s == [] then 0
    else
      assert forall c :: c in s[..|s| - 1] ==> c in s;
      var d := s[|s| - 1];
      assert d in s && IsDigit(d);
      10 * DecimalValue(s[..|s| - 1]) + (d as int - '0' as int)
  }

  /** Reading the decimal digits back gives the number. */
  lemma {:induction false} DecimalRoundTrip(n: nat)
    ensures DecimalValue(DecimalString(n)) == n
  {
    var s := DecimalString(n);
    if n >= 10 {
      DecimalRoundTrip(n / 10);
      assert s[..|s| - 1] == DecimalString(n / 10);
    } else {
      assert s[..|s| - 1] == [];
    }
  }

  /** The file name an upload is stored under: the time in milliseconds, a hyphen, the safe name. */
  function UploadFileName(name: string, now: nat): string {
    DecimalString(now) + "-" + SafeName(name)
  }

  /**
   * `uploadImage`: no file gives "No file uploaded"; a failure while storing
   * (`failed`) gives "Upload failed"; otherwise the url of the stored file.
   */
  function UploadImage(file: Option<string>, now: nat, failed: bool): (r: UploadResponse)
    ensures file.None? ==> r == UploadError("No file uploaded")
    ensures file.Some? && failed ==> r == UploadError("Upload failed")
    ensures file.Some? && !failed ==>
      r.Uploaded? && r.url == "/uploads/" + UploadFileName(file.value, now)
  {
    match file
    case None => UploadError("No file uploaded")
    case Some(name) =>
      if failed then UploadError("Upload failed") else Uploaded("/uploads/" + UploadFileName(name, now))
  }

  /**
   * The stored file stays inside the uploads directory: its name holds no
   * `/`, starts with a digit, and its characters are digits, letters, `.`
   * and `-` only.
   */
  lemma UploadStaysInUploads(name: string, now: nat)
    ensures var f := UploadFileName(name, now);
      f != [] && IsDigit(f[0]) && '/' !in f && forall c :: c in f ==> IsSafeNameChar(c)
  {
    var d := DecimalString(now);
    var f := UploadFileName(name, now);
    assert d[0] in d;
    assert f[0] == d[0];
    assert forall c :: c in f ==> c in d || c == '-' || c in SafeName(name);
  }
}
