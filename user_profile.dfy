/** The profile endpoints of the server: the normalisers that accept a list
    either as a JSON array or as comma-separated text, the update document
    `updateUserProfile` builds field by field, and the validation and
    document of `onboardUser`. `JSON.parse` is an oracle from text to a value
    (`None` when the text is not JSON); it is given the text the value
    becomes under `String(...)`, as `JSON.parse` does. Whether the database
    finds the user is a parameter. */
module UserProfile {
  import opened Text
  import opened Wrappers
  import opened JsValues

  type Json = string -> Option<JsValue>

  /** A request body: absent fields read as `undefined`. */
  type Body = map<string, JsValue>

  function Field(body: Body, k: string): JsValue {
    if k in body then body[k] else Undefined
  }

  // ---------------------------------------------------------------------
  // parseArray

  /** `xs.map(s => s.trim())`: a TypeError unless every element is a string. */
  function TrimEach(xs: seq<JsValue>): (r: Attempt<seq<string>>)
    ensures r.Done? <==> forall i :: 0 <= i < |xs| ==> xs[i].Str?
    ensures r.Done? ==> |r.value| == |xs| && forall i :: 0 <= i < |xs| ==> r.value[i] == Trim(xs[i].s)
  {
    if forall i :: 0 <= i < |xs| ==> xs[i].Str? then
      var texts := seq(|xs|, i requires 0 <= i < |xs| => xs[i].s);
      Done(TrimAll(texts))
    else Threw
  }

  /** `parseArray`: nothing for a falsy input; an array or a JSON array
      trimmed element by element; any other JSON value gives nothing; text
      that is not JSON, or a JSON array holding a non-string, is split on
      commas and each piece trimmed. A non-string that is not JSON reaches
      `split` and throws. */
  function ParseArray(input: JsValue, json: Json): (r: Attempt<seq<string>>)
    ensures !Truthy(input) ==> r == Done([])
    ensures input.Arr? ==> r == TrimEach(input.items)
    ensures input.Str? && input.s != "" && json(input.s).None? ==>
      r == Done(TrimmedPieces(input.s, ','))
    ensures input.Str? && input.s != "" && json(input.s).Some? ==>
      var parsed := json(input.s).value;
      r == if !parsed.Arr? then Done([])
           else if TrimEach(parsed.items).Done? then TrimEach(parsed.items)
           else Done(TrimmedPieces(input.s, ','))
    ensures r.Done? ==> forall i :: 0 <= i < |r.value| ==> IsTrimmed(r.value[i])
  {
    if !Truthy(input) then Done([])
    else if input.Arr? then TrimEach(input.items)
    else
      var parsed := json(ToText(input));
      var attempt :=
        if parsed.None? then Threw
        else if parsed.value.Arr? then TrimEach(parsed.value.items)
        else Done([]);
      if attempt.Done? then attempt
      else if input.Str? then Done(TrimmedPieces(input.s, ','))
      else Threw
  }

  /** Comma-separated text that is not JSON splits into one trimmed piece
      per comma plus one; empty pieces are kept. */
  lemma ParseArrayPieces(s: string, json: Json)
    requires s != "" && json(s).None?
    ensures ParseArray(Str(s), json).Done?
    ensures |ParseArray(Str(s), json).value| == Occurrences(s, ',') + 1
  {
  }

  /** A list of trimmed, comma-free, non-empty strings written out with
      commas reads back as itself, unless the text happens to be JSON. */
  lemma ParseArrayRoundTrip(xs: seq<string>, json: Json)
    requires |xs| > 0
    requires forall i :: 0 <= i < |xs| ==> xs[i] != "" && IsTrimmed(xs[i]) && ',' !in xs[i]
    requires json(Join(xs, ",")).None?
    ensures ParseArray(Str(Join(xs, ",")), json) == Done(xs)
  {
    JoinNonEmpty(xs, ",");
    TrimmedPiecesOfJoin(xs, ',');
    assert [','] == ",";
  }

  /** What `parseArray` returns, given back to it as an array, comes back
      unchanged. */
  lemma ParseArrayIdempotent(input: JsValue, json: Json)
    requires ParseArray(input, json).Done?
    ensures ParseArray(Strs(ParseArray(input, json).value), json) == ParseArray(input, json)
  {
    TrimEachTrimmed(ParseArray(input, json).value);
  }

  lemma TrimEachTrimmed(xs: seq<string>)
    requires forall i :: 0 <= i < |xs| ==> IsTrimmed(xs[i])
    ensures TrimEach(Strs(xs).items) == Done(xs)
  {
    var t := TrimEach(Strs(xs).items);
    assert t.Done? && |t.value| == |xs|;
    forall i | 0 <= i < |xs| ensures t.value[i] == xs[i] {
      TrimOfTrimmed(xs[i]);
    }
    assert t.value == xs;
  }

  lemma {:induction false} JoinNonEmpty(xs: seq<string>, sep: string)
    requires |xs| > 0 && xs[0] != ""
    ensures Join(xs, sep) != ""
  {
    if |xs| > 1 {
      assert Join(xs, sep)[..|xs[0]|] == xs[0];
    }
  }

  // ---------------------------------------------------------------------
  // parseProjects

  /** One element of a project array: an object with a truthy `name` keeps
      it and gets `gitHubUrl` or ""; a string becomes a project named by its
      trimmed text with no URL; anything else is kept as it is, except
      `null`, whose `.name` throws (`typeof null` is "object"). */
  function ProjectOf(p: JsValue): (r: Attempt<JsValue>)
    ensures r.Threw? <==> p.Null?
    ensures p.Str? ==> r == Done(Project(Str(Trim(p.s)), Str("")))
    ensures p.Obj? && Truthy(OptGet(p, "name")) ==>
      r == Done(Project(OptGet(p, "name"), Or(OptGet(p, "gitHubUrl"), Str(""))))
    ensures !p.Str? && !(p.Obj? && Truthy(OptGet(p, "name"))) && !p.Null? ==> r == Done(p)
  {
    match p
    case Null => Threw
    case Obj(m) =>
      if Truthy(OptGet(p, "name")) then Done(Project(OptGet(p, "name"), Or(OptGet(p, "gitHubUrl"), Str(""))))
      else Done(p)
    case Str(s) => Done(Project(Str(Trim(s)), Str("")))
    case _ => Done(p)
  }

  /** `input.map(project => ...)`: a TypeError when some element is `null`,
      else one result per element, in order. */
  function MapProjects(xs: seq<JsValue>): (r: Attempt<seq<JsValue>>)
    ensures r.Done? <==> forall i :: 0 <= i < |xs| ==> !xs[i].Null?
    ensures r.Done? ==> |r.value| == |xs| && forall i :: 0 <= i < |xs| ==> r.value[i] == ProjectOf(xs[i]).value
  {
    if xs == [] then Done([])
    else if xs[0].Null? then Threw
    else
      var rest := MapProjects(xs[1..]);
      if rest.Threw? then
        assert exists i :: 1 <= i < |xs| && xs[i].Null? by {
          var j :| 0 <= j < |xs[1..]| && xs[1..][j].Null?;
          assert xs[j + 1].Null?;
        }
        Threw
      else Done([ProjectOf(xs[0]).value] + rest.value)
  }

  /** The projects named by comma-separated text: one per piece, trimmed,
      with no URL. */
  function NamedProjects(names: seq<string>): (r: seq<JsValue>)
    ensures |r| == |names|
    ensures forall i :: 0 <= i < |names| ==> r[i] == Project(Str(Trim(names[i])), Str(""))
  {
    seq(|names|, i requires 0 <= i < |names| => Project(Str(Trim(names[i])), Str("")))
  }

  /** `parseProjects`: nothing for a falsy input; an array mapped element by
      element; otherwise the JSON is parsed and, when it is an array, handed
      back to `parseProjects`; other JSON gives nothing. Text that is not
      JSON, or whose array holds a `null`, names one project per comma
      piece; a non-string reaching `split` throws. */
  function ParseProjects(input: JsValue, json: Json): (r: Attempt<seq<JsValue>>)
    ensures !Truthy(input) ==> r == Done([])
    ensures input.Arr? ==> r == MapProjects(input.items)
    ensures input.Arr? && r.Done? ==> |r.value| == |input.items|
    ensures input.Str? && input.s != "" && json(input.s).None? ==>
      r == Done(NamedProjects(Split(input.s, ',')))
    ensures input.Str? && input.s != "" && json(input.s).Some? && !json(input.s).value.Arr? ==>
      r == Done([])
    ensures input.Str? && input.s != "" && json(input.s).Some? && json(input.s).value.Arr? ==>
      var mapped := MapProjects(json(input.s).value.items);
      r == if mapped.Done? then mapped else Done(NamedProjects(Split(input.s, ',')))
    decreases if input.Arr? then 0 else 1
  {
    if !Truthy(input) then Done([])
    else if input.Arr? then MapProjects(input.items)
    else
      var parsed := json(ToText(input));
      var attempt :=
        if parsed.None? then Threw
        else if parsed.value.Arr? then ParseProjects(parsed.value, json)
        else Done([]);
      if attempt.Done? then attempt
      else if input.Str? then Done(NamedProjects(Split(input.s, ',')))
      else Threw
  }

  /** A JSON array of projects holding a `null` falls back to the comma
      split of the raw text, like text that is not JSON. */
  lemma ParseProjectsNullInJson(s: string, json: Json, i: nat)
    requires s != "" && json(s).Some? && json(s).value.Arr?
    requires i < |json(s).value.items| && json(s).value.items[i].Null?
    ensures ParseProjects(Str(s), json) == Done(NamedProjects(Split(s, ',')))
  {
    var parsed := json(ToText(Str(s)));
    assert parsed == json(s);
    assert !parsed.value.items[i].Null? ==> false;
    assert MapProjects(parsed.value.items).Threw?;
    assert ParseProjects(parsed.value, json).Threw?;
  }

  /** A project `parseProjects` built, given back to it, comes back
      unchanged. */
  lemma ProjectOfIdempotent(p: JsValue)
    requires ProjectOf(p).Done?
    ensures ProjectOf(ProjectOf(p).value) == ProjectOf(p)
  {
    var q := ProjectOf(p).value;
    if p.Str? {
      ProjectFields(Str(Trim(p.s)), Str(""));
    } else if p.Obj? && Truthy(OptGet(p, "name")) {
      var url := Or(OptGet(p, "gitHubUrl"), Str(""));
      ProjectFields(OptGet(p, "name"), url);
      assert Or(url, Str("")) == url;
    }
  }

  lemma ParseProjectsIdempotent(xs: seq<JsValue>)
    requires MapProjects(xs).Done?
    ensures MapProjects(MapProjects(xs).value) == MapProjects(xs)
  {
    var r := MapProjects(xs).value;
    forall i | 0 <= i < |r| ensures ProjectOf(r[i]) == Done(r[i]) {
      ProjectOfIdempotent(xs[i]);
    }
    var rr := MapProjects(r);
    assert rr.Done?;
    assert rr.value == r;
  }

  // ---------------------------------------------------------------------
  // updateUserProfile

  /** The fields copied into `$set` as they are, when truthy. */
  const PlainFields: set<string> := {"location", "role", "experience", "experienceType"}
  /** The fields normalised by `parseArray`, when truthy. */
  const ListFields: set<string> := {"skills", "skillsToLearn", "availability"}
  /** Every field `$set` may hold. */
  const UpdateFields: set<string> := PlainFields + ListFields + {"projects"}

  /** What a truthy field becomes in `$set`. */
  function Normalised(k: string, v: JsValue, json: Json): Attempt<JsValue> {
    if k in ListFields then
      var p := ParseArray(v, json);
      if p.Threw? then Threw else Done(Strs(p.value))
    else if k == "projects" then
      var p := ParseProjects(v, json);
      if p.Threw? then Threw else Done(Arr(p.value))
    else Done(v)
  }

  /** Some truthy field would throw while being normalised. */
  ghost predicate NormaliseThrows(body: Body, json: Json) {
    exists k :: k in UpdateFields && Truthy(Field(body, k)) && Normalised(k, Field(body, k), json).Threw?
  }

  /** The `$set` document, defined all at once: every truthy updatable field
      and nothing else, the plain ones as given, the list ones trimmed
      element by element, the projects normalised. */
  function SetOf(body: Body, json: Json): (r: map<string, JsValue>)
    requires !NormaliseThrows(body, json)
    ensures forall k :: k in r <==> k in UpdateFields && Truthy(Field(body, k))
    ensures forall k :: k in r && k in PlainFields ==> r[k] == Field(body, k)
    ensures forall k :: k in r && k in ListFields ==>
      && ParseArray(Field(body, k), json).Done?
      && r[k] == Strs(ParseArray(Field(body, k), json).value)
      && forall i :: 0 <= i < |r[k].items| ==> r[k].items[i].Str? && IsTrimmed(r[k].items[i].s)
    ensures "projects" in r ==> r["projects"] == Arr(ParseProjects(Field(body, "projects"), json).value)
  {
    map k | k in UpdateFields && Truthy(Field(body, k)) :: Normalised(k, Field(body, k), json).value
  }

  /** `$set` has exactly the fields handled so far (`done`) that are truthy,
      each normalised. */
  ghost predicate Built(fields: map<string, JsValue>, body: Body, json: Json, done: set<string>) {
    && (forall k :: k in fields <==> k in done && Truthy(Field(body, k)))
    && (forall k :: k in fields ==> Normalised(k, Field(body, k), json) == Done(fields[k]))
  }

  /** The update handed to the database: `$set` is present only when it has
      a field, `$push` only when there are certificate URLs to append. */
  datatype UpdateDoc = UpdateDoc(setFields: Option<map<string, JsValue>>, pushCertificates: Option<JsValue>)

  /** The certificate URLs taken from the body: only when files were
      uploaded, and an empty array when the body names none. */
  function CertificateUrls(body: Body, fileCount: nat): (r: JsValue)
    ensures !Nullish(r)
    ensures fileCount == 0 ==> r == Arr([])
    ensures fileCount > 0 ==> r == Or(Field(body, "certificateUrls"), Arr([]))
    ensures fileCount > 0 && Truthy(Field(body, "certificateUrls")) ==> r == Field(body, "certificateUrls")
  {
    if fileCount > 0 then Or(Field(body, "certificateUrls"), Arr([])) else Arr([])
  }

  /** One line of the handler, `if (v) $set.k = normalise(v)`, with the
      normaliser `Normalised` picks for the field. */
  method Put(fields: map<string, JsValue>, body: Body, json: Json, ghost done: set<string>, k: string)
    returns (r: Attempt<map<string, JsValue>>)
    requires Built(fields, body, json, done) && k !in done
    ensures r.Threw? <==> Truthy(Field(body, k)) && Normalised(k, Field(body, k), json).Threw?
    ensures r.Done? ==> Built(r.value, body, json, done + {k})
  {
    var v := Field(body, k);
    if !Truthy(v) {
      return Done(fields);
    }
    var n := Normalised(k, v, json);
    if n.Threw? {
      return Threw;
    }
    return Done(fields[k := n.value]);
  }

  /** The `$set` of `updateUserProfile`, built field by field in the order
      the handler looks at them; `Threw` when normalising a truthy field
      throws. */
  method BuildSet(body: Body, json: Json) returns (r: Attempt<map<string, JsValue>>)
    ensures r.Threw? <==> NormaliseThrows(body, json)
    ensures r.Done? ==> r.value == SetOf(body, json)
  {
    ghost var done: set<string> := {};
    var step := Put(map[], body, json, done, "location");
    if step.Threw? { ThrowsAt(body, json, "location"); return Threw; }
    done := done + {"location"};
    step := Put(step.value, body, json, done, "role");
    if step.Threw? { ThrowsAt(body, json, "role"); return Threw; }
    done := done + {"role"};
    step := Put(step.value, body, json, done, "experience");
    if step.Threw? { ThrowsAt(body, json, "experience"); return Threw; }
    done := done + {"experience"};
    step := Put(step.value, body, json, done, "experienceType");
    if step.Threw? { ThrowsAt(body, json, "experienceType"); return Threw; }
    done := done + {"experienceType"};
    step := Put(step.value, body, json, done, "skills");
    if step.Threw? { ThrowsAt(body, json, "skills"); return Threw; }
    done := done + {"skills"};
    step := Put(step.value, body, json, done, "skillsToLearn");
    if step.Threw? { ThrowsAt(body, json, "skillsToLearn"); return Threw; }
    done := done + {"skillsToLearn"};
    step := Put(step.value, body, json, done, "availability");
    if step.Threw? { ThrowsAt(body, json, "availability"); return Threw; }
    done := done + {"availability"};
    step := Put(step.value, body, json, done, "projects");
    if step.Threw? { ThrowsAt(body, json, "projects"); return Threw; }
    done := done + {"projects"};
    assert done == UpdateFields;
    var fields := step.value;
    SetOfBuilt(fields, body, json);
    return Done(fields);
  }

  /** A truthy field whose normalisation throws makes the handler throw. */
  lemma ThrowsAt(body: Body, json: Json, k: string)
    requires k in UpdateFields && Truthy(Field(body, k)) && Normalised(k, Field(body, k), json).Threw?
    ensures NormaliseThrows(body, json)
  {
  }

  /** `updateUserProfile`: 401 without a user. Otherwise the fields are
      looked at one by one and only truthy ones enter `$set` (a throw while
      normalising one answers 500); certificate URLs with a truthy length
      are appended. With neither it answers 400 "Nothing to update";
      otherwise the update goes to the database and the answer is 404 or 200
      as the user is found. */
  method UpdateUserProfile(userId: string, body: Body, fileCount: nat, json: Json, userFound: bool)
    returns (reply: Reply, update: Option<UpdateDoc>)
    ensures userId == "" ==> reply == Reply(401, "Unauthorized") && update == None
    ensures userId != "" && NormaliseThrows(body, json) ==>
      reply == Reply(500, "Internal server error") && update == None
    ensures userId != "" && !NormaliseThrows(body, json) ==>
      var fields := SetOf(body, json);
      var certs := CertificateUrls(body, fileCount);
      var push := if Truthy(OptGet(certs, "length")) then Some(certs) else None;
      if fields == map[] && push.None? then
        reply == Reply(400, "Nothing to update") && update == None
      else
        && update == Some(UpdateDoc(if fields == map[] then None else Some(fields), push))
        && reply == if userFound then Reply(200, "Profile updated successfully")
                    else Reply(404, "User not found in database")
  {
    if userId == "" {
      return Reply(401, "Unauthorized"), None;
    }
    var certificateUrls := CertificateUrls(body, fileCount);
    var built := BuildSet(body, json);
    if built.Threw? {
      return Reply(500, "Internal server error"), None;
    }
    var fields := built.value;
    EmptyMap(fields);
    var push: Option<JsValue> := None;
    if Truthy(OptGet(certificateUrls, "length")) {
      push := Some(certificateUrls);
    }
    if |fields| == 0 && push.None? {
      return Reply(400, "Nothing to update"), None;
    }
    update := Some(UpdateDoc(if |fields| > 0 then Some(fields) else None, push));
    if !userFound {
      reply := Reply(404, "User not found in database");
    } else {
      reply := Reply(200, "Profile updated successfully");
    }
  }

  /** Once every updatable field has been handled, the `$set` built step by
      step is the one `SetOf` defines. */
  lemma SetOfBuilt(fields: map<string, JsValue>, body: Body, json: Json)
    requires Built(fields, body, json, UpdateFields)
    ensures !NormaliseThrows(body, json)
    ensures fields == SetOf(body, json)
  {
    forall k | k in UpdateFields && Truthy(Field(body, k)) ensures Normalised(k, Field(body, k), json).Done? {
      assert k in fields;
    }
    var r := SetOf(body, json);
    assert forall k :: k in fields <==> k in r;
    assert forall k :: k in fields ==> fields[k] == r[k];
  }

  lemma EmptyMap(m: map<string, JsValue>)
    ensures |m| == 0 <==> m == map[]
  {
    if |m| != 0 {
      var k :| k in m.Keys;
    }
  }

  /** "Nothing to update" is answered exactly when no updatable field is
      truthy and no certificate URLs are appended. */
  lemma NothingToUpdate(body: Body, json: Json)
    requires !NormaliseThrows(body, json)
    ensures SetOf(body, json) == map[] <==> forall k :: k in UpdateFields ==> !Truthy(Field(body, k))
  {
    if forall k :: k in UpdateFields ==> !Truthy(Field(body, k)) {
      assert forall k :: k !in SetOf(body, json);
    } else {
      var k :| k in UpdateFields && Truthy(Field(body, k));
      assert k in SetOf(body, json);
    }
  }

  // ---------------------------------------------------------------------
  // onboardUser

  /** `p.name && p.gitHubUrl` for a project that is not `null`/`undefined`. */
  predicate HasNameAndUrl(p: JsValue) {
    !Nullish(p) && Truthy(OptGet(p, "name")) && Truthy(OptGet(p, "gitHubUrl"))
  }

  /** `ps.some(p => !p.name || !p.gitHubUrl)`, scanning from the front; a
      `null` or `undefined` reached throws on `.name`. */
  function SomeProjectIncomplete(ps: seq<JsValue>): (r: Attempt<bool>)
    ensures r == Done(false) <==> forall i :: 0 <= i < |ps| ==> HasNameAndUrl(ps[i])
  {
    if ps == [] then Done(false)
    else if Nullish(ps[0]) then Threw
    else if !HasNameAndUrl(ps[0]) then Done(true)
    else
      var rest := SomeProjectIncomplete(ps[1..]);
      assert (forall i :: 0 <= i < |ps| ==> HasNameAndUrl(ps[i])) <==>
             (forall i :: 0 <= i < |ps[1..]| ==> HasNameAndUrl(ps[1..][i])) by {
        if forall i :: 0 <= i < |ps[1..]| ==> HasNameAndUrl(ps[1..][i]) {
          forall i | 1 <= i < |ps| ensures HasNameAndUrl(ps[i]) {
            assert ps[i] == ps[1..][i - 1];
          }
        }
      }
      rest
  }

  /** The first project lacking a name or URL decides: a `null` there
      throws, anything else makes `some` true. */
  lemma {:induction false} SomeProjectIncompleteFirst(ps: seq<JsValue>, i: nat)
    requires i < |ps| && !HasNameAndUrl(ps[i])
    requires forall j :: 0 <= j < i ==> HasNameAndUrl(ps[j])
    ensures SomeProjectIncomplete(ps) == if Nullish(ps[i]) then Threw else Done(true)
    decreases i
  {
    if i > 0 {
      assert HasNameAndUrl(ps[0]);
      forall j | 0 <= j < i - 1 ensures HasNameAndUrl(ps[1..][j]) {
        assert ps[1..][j] == ps[j + 1];
      }
      SomeProjectIncompleteFirst(ps[1..], i - 1);
    }
  }

  const MissingFields := "Missing required fields"
  const IncompleteProject := "Each project must have a name and a url"
  const InvalidProjects := "Invalid projects format. Must be a JSON array."

  /** The outcome of the `projects` check of onboarding. */
  datatype Checked = Accepted(projects: seq<JsValue>) | Refused(message: string)

  /** `JSON.parse(projects)` must succeed and give an array all of whose
      elements have a truthy `name` and `gitHubUrl`. A parse failure, or a
      `null` reached while checking, is refused as an invalid format; a
      non-array or an incomplete project as lacking a name and a URL. */
  function CheckProjects(projects: JsValue, json: Json): (r: Checked)
    ensures var parsed := json(ToText(projects));
      && (r.Accepted? <==> parsed.Some? && parsed.value.Arr?
                           && forall i :: 0 <= i < |parsed.value.items| ==> HasNameAndUrl(parsed.value.items[i]))
      && (r.Accepted? ==> parsed == Some(Arr(r.projects)))
      && (parsed.None? ==> r == Refused(InvalidProjects))
      && (parsed.Some? && !parsed.value.Arr? ==> r == Refused(IncompleteProject))
      && (r.Refused? ==> r.message == InvalidProjects || r.message == IncompleteProject)
  {
    var parsed := json(ToText(projects));
    if parsed.None? then Refused(InvalidProjects)
    else if !parsed.value.Arr? then Refused(IncompleteProject)
    else
      var check := SomeProjectIncomplete(parsed.value.items);
      if check.Threw? then Refused(InvalidProjects)
      else if check.value then Refused(IncompleteProject)
      else Accepted(parsed.value.items)
  }

  /** With a JSON array, the message is decided by the first project lacking
      a name or URL. */
  lemma CheckProjectsFirstBad(projects: JsValue, json: Json, i: nat)
    requires json(ToText(projects)).Some? && json(ToText(projects)).value.Arr?
    requires var ps := json(ToText(projects)).value.items;
      i < |ps| && !HasNameAndUrl(ps[i]) && forall j :: 0 <= j < i ==> HasNameAndUrl(ps[j])
    ensures var ps := json(ToText(projects)).value.items;
      CheckProjects(projects, json) == Refused(if Nullish(ps[i]) then InvalidProjects else IncompleteProject)
  {
    SomeProjectIncompleteFirst(json(ToText(projects)).value.items, i);
  }

  /** `v?.split(",").map(s => s.trim()) || []`: nothing for `null` or
      `undefined`, the trimmed comma pieces of a string (at least one), a
      TypeError for anything else. */
  function SplitTrim(v: JsValue): (r: Attempt<seq<string>>)
    ensures Nullish(v) ==> r == Done([])
    ensures v.Str? ==> r == Done(TrimmedPieces(v.s, ','))
    ensures v.Str? ==> r.Done? && |r.value| == Occurrences(v.s, ',') + 1
    ensures v.Str? ==> forall i :: 0 <= i < |r.value| ==> IsTrimmed(r.value[i]) && ',' !in r.value[i]
    ensures !Nullish(v) && !v.Str? ==> r == Threw
  {
    match v
    case Undefined => Done([])
    case Null => Done([])
    case Str(s) =>
      Done(TrimmedPieces(s, ','))
    case _ => Threw
  }

  /** Comma-free trimmed pieces written out with commas split back into
      themselves. */
  lemma SplitTrimRoundTrip(xs: seq<string>)
    requires |xs| > 0
    requires forall i :: 0 <= i < |xs| ==> IsTrimmed(xs[i]) && ',' !in xs[i]
    ensures SplitTrim(Str(Join(xs, ","))) == Done(xs)
  {
    TrimmedPiecesOfJoin(xs, ',');
    assert [','] == ",";
  }

  /** The document `$set` by onboarding. */
  datatype OnboardDoc = OnboardDoc(
    skills: seq<string>, skillsToLearn: seq<string>, projects: seq<JsValue>,
    location: JsValue, role: JsValue, experience: JsValue, experienceType: JsValue,
    availability: seq<string>, isOnBoarded: bool, pushCertificates: JsValue)

  datatype OnboardOutcome = OnboardOutcome(reply: Reply, doc: Option<OnboardDoc>)

  /** A value `v?.split(",")` accepts: `null`, `undefined` or a string. */
  predicate Splittable(v: JsValue) {
    Nullish(v) || v.Str?
  }

  /** The fields onboarding refuses to go without. */
  predicate HasRequired(body: Body) {
    && Truthy(Field(body, "skills")) && Truthy(Field(body, "projects")) && Truthy(Field(body, "location"))
    && Truthy(Field(body, "role")) && Truthy(Field(body, "availability"))
  }

  /** `onboardUser`: 401 without a user; 400 when a required field is
      falsy; then the `projects` check (400 with its message); then the
      three lists are split and trimmed (500 on a non-string) and the user
      is marked onboarded, answering 404 or 200 as the user is found. */
  function OnboardUser(userId: string, body: Body, fileCount: nat, json: Json, userFound: bool)
    : (r: OnboardOutcome)
    ensures userId == "" ==> r == OnboardOutcome(Reply(401, "Unauthorized"), None)
    ensures userId != "" && !HasRequired(body) ==> r == OnboardOutcome(Reply(400, MissingFields), None)
    ensures userId != "" && HasRequired(body) && CheckProjects(Field(body, "projects"), json).Refused? ==>
      r == OnboardOutcome(Reply(400, CheckProjects(Field(body, "projects"), json).message), None)
    ensures r.doc.Some? <==> r.reply.status == 200 || r.reply.status == 404
    ensures r.reply.status == 200 ==> userFound && r.reply.message == "User onboarded successfully"
    ensures userId != "" && HasRequired(body) && CheckProjects(Field(body, "projects"), json).Accepted? ==>
      if Splittable(Field(body, "skills")) && Splittable(Field(body, "skillsToLearn"))
         && Splittable(Field(body, "availability"))
      then r.doc.Some? && r.reply == (if userFound then Reply(200, "User onboarded successfully")
                                      else Reply(404, "User not found in database"))
      else r == OnboardOutcome(Reply(500, "Internal server error"), None)
  {
    if userId == "" then OnboardOutcome(Reply(401, "Unauthorized"), None)
    else if !HasRequired(body) then OnboardOutcome(Reply(400, MissingFields), None)
    else
      var checked := CheckProjects(Field(body, "projects"), json);
      if checked.Refused? then OnboardOutcome(Reply(400, checked.message), None)
      else
        var skills := SplitTrim(Field(body, "skills"));
        var skillsToLearn := SplitTrim(Field(body, "skillsToLearn"));
        var availability := SplitTrim(Field(body, "availability"));
        if skills.Threw? || skillsToLearn.Threw? || availability.Threw? then
          OnboardOutcome(Reply(500, "Internal server error"), None)
        else
          var doc := OnboardDoc(
            skills.value, skillsToLearn.value, checked.projects,
            Field(body, "location"), Field(body, "role"),
            Field(body, "experience"), Field(body, "experienceType"),
            availability.value, true, CertificateUrls(body, fileCount));
          if !userFound then OnboardOutcome(Reply(404, "User not found in database"), Some(doc))
          else OnboardOutcome(Reply(200, "User onboarded successfully"), Some(doc))
  }

  /** The three lists of an onboarded document are the split and trimmed
      fields of the body. */
  lemma OnboardedLists(userId: string, body: Body, fileCount: nat, json: Json, userFound: bool)
    requires OnboardUser(userId, body, fileCount, json, userFound).doc.Some?
    ensures var d := OnboardUser(userId, body, fileCount, json, userFound).doc.value;
      && SplitTrim(Field(body, "skills")) == Done(d.skills)
      && SplitTrim(Field(body, "skillsToLearn")) == Done(d.skillsToLearn)
      && SplitTrim(Field(body, "availability")) == Done(d.availability)
  {
  }

  /** A document is built only for a user id and a body with every required
      field; its projects passed the check and each has a name and a URL;
      skills and availability were text, one trimmed piece per comma plus one;
      a missing `skillsToLearn` gives none; the plain fields are copied; the
      user is marked onboarded with the uploaded certificates. */
  lemma OnboardedDoc(userId: string, body: Body, fileCount: nat, json: Json, userFound: bool)
    requires OnboardUser(userId, body, fileCount, json, userFound).doc.Some?
    ensures var d := OnboardUser(userId, body, fileCount, json, userFound).doc.value;
      && userId != "" && HasRequired(body)
      && CheckProjects(Field(body, "projects"), json) == Accepted(d.projects)
      && (forall i :: 0 <= i < |d.projects| ==> HasNameAndUrl(d.projects[i]))
      && Field(body, "skills").Str? && Field(body, "availability").Str?
      && |d.skills| == Occurrences(Field(body, "skills").s, ',') + 1
      && |d.availability| == Occurrences(Field(body, "availability").s, ',') + 1
      && (forall i :: 0 <= i < |d.skills| ==> IsTrimmed(d.skills[i]))
      && (forall i :: 0 <= i < |d.availability| ==> IsTrimmed(d.availability[i]))
      && (Nullish(Field(body, "skillsToLearn")) ==> d.skillsToLearn == [])
      && d.location == Field(body, "location") && d.role == Field(body, "role")
      && d.experience == Field(body, "experience") && d.experienceType == Field(body, "experienceType")
      && d.isOnBoarded
      && d.pushCertificates == CertificateUrls(body, fileCount)
  {
    OnboardedLists(userId, body, fileCount, json, userFound);
  }
}
