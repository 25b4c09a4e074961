/** The profile form of the client: filling it from the stored profile,
    editing one field, and turning it into the update payload, where the
    comma-separated text fields become lists of trimmed, non-empty pieces
    and project text becomes project objects without a URL. */
module UpdateProfilePage {
  import opened Text
  import opened Wrappers
  import opened JsValues

  /** The form state: field name to the value shown. */
  type Form = map<string, JsValue>

  /** The fields the form starts with, all "". */
  const FormFields: set<string> :=
    {"skills", "projects", "location", "role", "availability", "skillsToLearn", "experience", "experienceType"}
  /** The fields the payload turns into lists. */
  const ListFields: set<string> := {"skills", "projects", "availability", "skillsToLearn"}

  /** The list fields all hold text, so submitting can split them. */
  predicate Submittable(form: Form) {
    && "skills" in form && form["skills"].Str?
    && "projects" in form && form["projects"].Str?
    && "availability" in form && form["availability"].Str?
    && "skillsToLearn" in form && form["skillsToLearn"].Str?
  }

  /** The form before the profile arrives. */
  function InitialForm(): (f: Form)
    ensures f.Keys == FormFields && Submittable(f)
    ensures forall k :: k in f ==> f[k] == Str("")
  {
    map k | k in FormFields :: Str("")
  }

  // ---------------------------------------------------------------------
  // handleChange

  /** `handleChange`: the named field takes the typed text. */
  function HandleChange(form: Form, name: string, value: string): (r: Form)
    ensures r.Keys == form.Keys + {name}
    ensures r[name] == Str(value)
    ensures forall k :: k in form && k != name ==> r[k] == form[k]
    ensures Submittable(form) ==> Submittable(r)
  {
    form[name := Str(value)]
  }

  // ---------------------------------------------------------------------
  // fetchProfile

  /** `v?.join(", ") || ""`: "" for `null`/`undefined`, the joined texts of
      an array, a TypeError for anything else. */
  function JoinedOrEmpty(v: JsValue): (r: Attempt<string>)
    ensures Nullish(v) ==> r == Done("")
    ensures v.Arr? ==> r == Done(JoinValues(v.items, ", "))
    ensures !Nullish(v) && !v.Arr? ==> r == Threw
  {
    if Nullish(v) then Done("")
    else if v.Arr? then Done(JoinValues(v.items, ", "))
    else Threw
  }

  /** `p => typeof p === "string" ? p : p.gitHubUrl`: a string project is
      shown as itself, any other as its URL; `null` and `undefined` throw. */
  function ShownProject(p: JsValue): (r: Attempt<JsValue>)
    ensures p.Str? ==> r == Done(p)
    ensures Nullish(p) <==> r.Threw?
    ensures !p.Str? && !Nullish(p) ==> r == Done(OptGet(p, "gitHubUrl"))
  {
    if p.Str? then Done(p) else if Nullish(p) then Threw else Done(OptGet(p, "gitHubUrl"))
  }

  function ShownProjects(ps: seq<JsValue>): (r: Attempt<seq<JsValue>>)
    ensures r.Done? <==> forall i :: 0 <= i < |ps| ==> !Nullish(ps[i])
    ensures r.Done? ==> |r.value| == |ps| && forall i :: 0 <= i < |ps| ==> r.value[i] == ShownProject(ps[i]).value
  {
    if ps == [] then Done([])
    else if Nullish(ps[0]) then Threw
    else
      var rest := ShownProjects(ps[1..]);
      if rest.Threw? then
        assert exists i :: 1 <= i < |ps| && Nullish(ps[i]) by {
          var j :| 0 <= j < |ps[1..]| && Nullish(ps[1..][j]);
          assert Nullish(ps[j + 1]);
        }
        Threw
      else Done([ShownProject(ps[0]).value] + rest.value)
  }

  /** `u.projects?.map(...).join(", ") || ""`. */
  function ProjectsText(v: JsValue): (r: Attempt<string>)
    ensures Nullish(v) ==> r == Done("")
    ensures !Nullish(v) && !v.Arr? ==> r == Threw
    ensures v.Arr? ==> (r.Done? <==> forall i :: 0 <= i < |v.items| ==> !Nullish(v.items[i]))
    ensures v.Arr? && r.Done? ==> r == Done(JoinValues(ShownProjects(v.items).value, ", "))
  {
    if Nullish(v) then Done("")
    else if !v.Arr? then Threw
    else
      var shown := ShownProjects(v.items);
      if shown.Threw? then Threw else Done(JoinValues(shown.value, ", "))
  }

  /** `fetchProfile`: the form is replaced by the profile's fields: lists
      joined with ", ", projects shown as text or URL, the other fields as
      given when truthy and "" otherwise. When reading the profile throws,
      the form is left as it was (`Threw`). */
  function FetchProfile(u: JsValue): (r: Attempt<Form>)
    ensures Nullish(u) ==> r == Threw
    ensures r.Done? ==> r.value.Keys == FormFields && Submittable(r.value)
    ensures r.Done? <==> (
      && !Nullish(u)
      && JoinedOrEmpty(OptGet(u, "skills")).Done? && ProjectsText(OptGet(u, "projects")).Done?
      && JoinedOrEmpty(OptGet(u, "availability")).Done? && JoinedOrEmpty(OptGet(u, "skillsToLearn")).Done?)
  {
    if Nullish(u) then Threw
    else
      var skills := JoinedOrEmpty(OptGet(u, "skills"));
      var projects := ProjectsText(OptGet(u, "projects"));
      var availability := JoinedOrEmpty(OptGet(u, "availability"));
      var skillsToLearn := JoinedOrEmpty(OptGet(u, "skillsToLearn"));
      if skills.Threw? || projects.Threw? || availability.Threw? || skillsToLearn.Threw? then Threw
      else
        Done(map[
          "skills" := Str(skills.value),
          "projects" := Str(projects.value),
          "location" := Or(OptGet(u, "location"), Str("")),
          "role" := Or(OptGet(u, "role"), Str("")),
          "availability" := Str(availability.value),
          "skillsToLearn" := Str(skillsToLearn.value),
          "experience" := Or(OptGet(u, "experience"), Str("")),
          "experienceType" := Or(OptGet(u, "experienceType"), Str(""))])
  }

  /** What a loaded form shows: plain fields as stored or "" when falsy,
      lists joined with ", " ("" when missing) and projects as text. */
  lemma FetchProfileFields(u: JsValue)
    requires FetchProfile(u).Done?
    ensures var f := FetchProfile(u).value;
      && f["location"] == Or(OptGet(u, "location"), Str(""))
      && f["role"] == Or(OptGet(u, "role"), Str(""))
      && f["experience"] == Or(OptGet(u, "experience"), Str(""))
      && f["experienceType"] == Or(OptGet(u, "experienceType"), Str(""))
      && f["skills"] == Str(JoinedOrEmpty(OptGet(u, "skills")).value)
      && f["availability"] == Str(JoinedOrEmpty(OptGet(u, "availability")).value)
      && f["skillsToLearn"] == Str(JoinedOrEmpty(OptGet(u, "skillsToLearn")).value)
      && f["projects"] == Str(ProjectsText(OptGet(u, "projects")).value)
  {
  }

  // ---------------------------------------------------------------------
  // handleSubmit

  /** `s.split(",").map(x => x.trim()).filter(Boolean)`; `Text.ItemsAround`
      and `Text.ItemsOfPiece` say which items come out, and in what order. */
  function CommaList(s: string): (r: seq<string>)
    ensures forall i :: 0 <= i < |r| ==> r[i] != "" && IsTrimmed(r[i]) && ',' !in r[i]
    ensures |r| <= Occurrences(s, ',') + 1
    ensures forall x :: x in r <==> x in TrimmedPieces(s, ',') && x != ""
  {
    Items(s, ',')
  }

  /** One project object per name, without a URL. */
  function NamedProjects(names: seq<string>): (r: seq<JsValue>)
    ensures |r| == |names|
    ensures forall i :: 0 <= i < |names| ==> r[i] == Project(Str(names[i]), Str(""))
  {
    seq(|names|, i requires 0 <= i < |names| => Project(Str(names[i]), Str("")))
  }

  /** `handleSubmit`'s payload: the form spread, with the four list fields
      replaced by their comma lists and the project names turned into
      project objects. A list field that is not text throws. */
  function Payload(form: Form): (r: Attempt<map<string, JsValue>>)
    ensures r.Done? <==> Submittable(form)
  {
    if !Submittable(form) then Threw
    else
      Done(WithLists(form, Strs(CommaList(form["skills"].s)),
                     Arr(NamedProjects(CommaList(form["projects"].s))),
                     Strs(CommaList(form["availability"].s)),
                     Strs(CommaList(form["skillsToLearn"].s))))
  }

  /** `{ ...form, skills, projects, availability, skillsToLearn }`. */
  function WithLists(form: Form, skills: JsValue, projects: JsValue, availability: JsValue, skillsToLearn: JsValue): (r: Form)
    ensures r.Keys == form.Keys + ListFields
    ensures r["skills"] == skills && r["projects"] == projects
    ensures r["availability"] == availability && r["skillsToLearn"] == skillsToLearn
    ensures forall k :: k in form && k !in ListFields ==> r[k] == form[k]
  {
    form["skills" := skills]["projects" := projects]["availability" := availability]["skillsToLearn" := skillsToLearn]
  }

  /** The payload has the form's fields, and every field but the four lists
      goes out as the form holds it. */
  lemma PayloadKeepsFields(form: Form)
    requires Submittable(form)
    ensures Payload(form).value.Keys == form.Keys
    ensures forall k :: k in form && k !in ListFields ==> Payload(form).value[k] == form[k]
  {
  }

  /** The three text lists go out as the comma lists of their text. */
  lemma PayloadTextLists(form: Form)
    requires Submittable(form)
    ensures Payload(form).value["skills"] == Strs(CommaList(form["skills"].s))
    ensures Payload(form).value["availability"] == Strs(CommaList(form["availability"].s))
    ensures Payload(form).value["skillsToLearn"] == Strs(CommaList(form["skillsToLearn"].s))
  {
  }

  /** The projects go out as one URL-less project per comma piece. */
  lemma PayloadProjectList(form: Form)
    requires Submittable(form)
    ensures Payload(form).value["projects"] == Arr(NamedProjects(CommaList(form["projects"].s)))
  {
  }

  /** The projects sent are named by the comma pieces of the projects text,
      in order, each with an empty URL. */
  lemma PayloadProjects(form: Form)
    requires Submittable(form)
    ensures var ps := Payload(form).value["projects"].items;
      var names := CommaList(form["projects"].s);
      && |ps| == |names|
      && forall i :: 0 <= i < |ps| ==>
        OptGet(ps[i], "name") == Str(names[i]) && OptGet(ps[i], "gitHubUrl") == Str("")
  {
    PayloadProjectList(form);
    var names := CommaList(form["projects"].s);
    forall i | 0 <= i < |names|
      ensures OptGet(NamedProjects(names)[i], "name") == Str(names[i])
      ensures OptGet(NamedProjects(names)[i], "gitHubUrl") == Str("")
    {
      ProjectFields(Str(names[i]), Str(""));
    }
  }

  /** A form that was loaded, then edited any number of times, can always be
      submitted. */
  lemma LoadedFormSubmits(u: JsValue, edits: seq<(string, string)>)
    requires FetchProfile(u).Done?
    ensures Payload(Edited(FetchProfile(u).value, edits)).Done?
  {
    EditedSubmittable(FetchProfile(u).value, edits);
  }

  /** The form after a sequence of `handleChange` edits. */
  function Edited(form: Form, edits: seq<(string, string)>): Form
    decreases |edits|
  {
    if edits == [] then form else Edited(HandleChange(form, edits[0].0, edits[0].1), edits[1..])
  }

  lemma {:induction false} EditedSubmittable(form: Form, edits: seq<(string, string)>)
    requires Submittable(form)
    ensures Submittable(Edited(form, edits))
    decreases |edits|
  {
    if edits != [] {
      EditedSubmittable(HandleChange(form, edits[0].0, edits[0].1), edits[1..]);
    }
  }

  // ---------------------------------------------------------------------
  // Round trips

  /** `s` with one leading space. */
  function Spaced(xs: seq<string>): (r: seq<string>)
    ensures |r| == |xs| && forall i :: 0 <= i < |xs| ==> r[i] == " " + xs[i]
  {
    seq(|xs|, i requires 0 <= i < |xs| => " " + xs[i])
  }

  lemma JoinCommaSpaceHead(xs: seq<string>)
    requires |xs| > 1
    ensures Join(xs, ", ") == xs[0] + [','] + ([' '] + Join(xs[1..], ", "))
  {
    assert Join(xs, ", ") == xs[0] + ", " + Join(xs[1..], ", ");
  }

  lemma SpacedCons(pieces: seq<string>, xs: seq<string>)
    requires |xs| > 0 && pieces == [xs[0]] + Spaced(xs[1..])
    ensures [[' '] + pieces[0]] + pieces[1..] == Spaced(xs)
  {
    assert pieces[1..] == Spaced(xs[1..]);
  }

  /** Text joined with ", " splits on ',' into the parts, all but the first
      with the space in front. */
  lemma {:induction false} SplitJoinedSpaced(xs: seq<string>)
    requires |xs| > 0 && forall i :: 0 <= i < |xs| ==> ',' !in xs[i]
    ensures Split(Join(xs, ", "), ',') == [xs[0]] + Spaced(xs[1..])
    decreases |xs|
  {
    SplitWithoutSeparator(xs[0], ',');
    if |xs| > 1 {
      var rest := Join(xs[1..], ", ");
      JoinCommaSpaceHead(xs);
      SplitAround(xs[0], ',', [' '] + rest);
      SplitJoinedSpaced(xs[1..]);
      SplitConsOther(' ', rest, ',');
      SpacedCons(Split(rest, ','), xs[1..]);
    }
  }

  lemma TrimSpaced(x: string)
    requires IsTrimmed(x)
    ensures Trim(" " + x) == x
  {
    TrimDropsLeadingSpace(' ', x);
    TrimOfTrimmed(x);
  }

  /** Trimming the split pieces of such text gives the parts back. */
  lemma TrimAllSpaced(xs: seq<string>)
    requires |xs| > 0 && forall i :: 0 <= i < |xs| ==> IsTrimmed(xs[i])
    ensures TrimAll([xs[0]] + Spaced(xs[1..])) == xs
  {
    var pieces := [xs[0]] + Spaced(xs[1..]);
    var t := TrimAll(pieces);
    forall i | 0 <= i < |xs| ensures t[i] == xs[i] {
      if i == 0 {
        TrimOfTrimmed(xs[0]);
      } else {
        assert pieces[i] == " " + xs[i];
        TrimSpaced(xs[i]);
      }
    }
  }

  /** A list shown in the form, then submitted unchanged, comes back as it
      was, when its items are non-empty, trimmed and hold no comma. */
  lemma CommaListRoundTrip(xs: seq<string>)
    requires forall i :: 0 <= i < |xs| ==> xs[i] != "" && IsTrimmed(xs[i]) && ',' !in xs[i]
    ensures CommaList(Join(xs, ", ")) == xs
  {
    if xs == [] {
      assert Split("", ',') == [""];
      assert TrimmedPieces("", ',') == TrimAll([""]) == [""];
    } else {
      var s := Join(xs, ", ");
      SplitJoinedSpaced(xs);
      TrimAllSpaced(xs);
      assert TrimmedPieces(s, ',') == TrimAll(Split(s, ',')) == xs;
      NonEmptyOfNonEmpty(xs);
    }
  }

  lemma JoinValuesOfStrs(xs: seq<string>, sep: string)
    ensures JoinValues(Strs(xs).items, sep) == Join(xs, sep)
  {
    var shown := seq(|xs|, i requires 0 <= i < |xs| =>
      if Nullish(Strs(xs).items[i]) then "" else ToText(Strs(xs).items[i]));
    assert shown == xs;
  }

  /** Loading a profile whose skills are clean and submitting the form
      untouched sends the same skills back. */
  lemma SkillsSurviveTheForm(u: JsValue, skills: seq<string>)
    requires forall i :: 0 <= i < |skills| ==> skills[i] != "" && IsTrimmed(skills[i]) && ',' !in skills[i]
    requires OptGet(u, "skills") == Strs(skills)
    requires FetchProfile(u).Done?
    ensures Payload(FetchProfile(u).value).value["skills"] == Strs(skills)
  {
    FetchProfileFields(u);
    PayloadTextLists(FetchProfile(u).value);
    JoinValuesOfStrs(skills, ", ");
    CommaListRoundTrip(skills);
  }

  /** A single project object is shown in the form as its URL. */
  lemma OneProjectShownAsUrl(name: JsValue, url: string)
    ensures ProjectsText(Arr([Project(name, Str(url))])) == Done(url)
  {
    ProjectFields(name, Str(url));
    var p := Project(name, Str(url));
    assert ShownProject(p) == Done(Str(url));
    assert [p][1..] == [];
    var shown := ShownProjects([p]);
    assert !Nullish([p][0]);
    assert shown.Done? && |shown.value| == 1 && shown.value[0] == Str(url);
    assert shown.value == Strs([url]).items;
    JoinValuesOfStrs([url], ", ");
  }

  /** One clean item is its own comma list. */
  lemma CommaListOfOne(x: string)
    requires x != "" && IsTrimmed(x) && ',' !in x
    ensures CommaList(x) == [x]
  {
    ItemsOfJoin([x], ',');
    assert Join([x], [',']) == x;
  }

  /** A stored project with a URL is shown by its URL and comes back from an
      untouched form as a project NAMED by that URL, with no URL: the form
      does not carry project names or URLs through a save. */
  lemma ProjectUrlBecomesName(u: JsValue, name: JsValue, url: string)
    requires url != "" && IsTrimmed(url) && ',' !in url
    requires OptGet(u, "projects") == Arr([Project(name, Str(url))])
    requires FetchProfile(u).Done?
    ensures Payload(FetchProfile(u).value).value["projects"] == Arr([Project(Str(url), Str(""))])
  {
    FetchProfileFields(u);
    OneProjectShownAsUrl(name, url);
    OneProjectSent(FetchProfile(u).value, url);
  }

  /** A form whose projects text is one clean item sends one project named
      by it. */
  lemma OneProjectSent(form: Form, x: string)
    requires x != "" && IsTrimmed(x) && ',' !in x
    requires Submittable(form) && form["projects"] == Str(x)
    ensures Payload(form).value["projects"] == Arr([Project(Str(x), Str(""))])
  {
    CommaListOfOne(x);
    PayloadProjectList(form);
    assert NamedProjects([x]) == [Project(Str(x), Str(""))];
  }
}
