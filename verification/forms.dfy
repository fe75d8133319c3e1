/**
 The duplicate-page form: validation of the target site and slug, and
 composition of the new page's URL path from the parent page's path and
 the slug. Slugification and the CMS's URL-uniqueness check are supplied
 by the caller as functions.
 */
module Forms {
  import opened Wrappers
  import Seqs

  /** Maximum length of the slug field. */
  const SlugMaxLength := 255

  datatype Field = SiteField | SlugField

  /** The validation messages the form can produce. */
  datatype ErrorMessage =
    | Required                              // "This field is required."
    | MaxLength(limit: nat, actual: nat)    // the slug field's length validator
    | SlugEmpty                             // "Slug must not be empty."
    | NotUnique(reason: string)             // raised by the URL-uniqueness check

  datatype FieldError = FieldError(field: Field, message: ErrorMessage)

  /**
   The form's cleaned data and errors. A field is present in the cleaned
   data exactly when it has no error; `path` is added by the form-level
   clean step.
   */
  datatype FormState = FormState(site: Option<nat>, slug: Option<string>, path: Option<string>, errors: seq<FieldError>)

  /** The node of the page being duplicated: a root, or a child whose parent may have a path in the content's language. */
  datatype Parent = Root | Child(parentPath: Option<string>)

  /** `field` has at least one error. */
  predicate HasErrorOn(state: FormState, field: Field) {
    exists i :: 0 <= i < |state.errors| && state.errors[i].field == field
  }

  /** The bookkeeping Django forms keep: a field is cleaned exactly when it has no error. */
  predicate Consistent(state: FormState) {
    && (state.site.Some? <==> !HasErrorOn(state, SiteField))
    && (state.slug.Some? <==> !HasErrorOn(state, SlugField))
  }

  /** `s` ends with `suffix`. */
  predicate EndsWith(s: string, suffix: string) {
    |suffix| <= |s| && s[|s| - |suffix|..] == suffix
  }

  /** The slug-specific clean step: the slugified input, or an error when slugifying leaves nothing. */
  function CleanSlug(data: string, slugify: string -> string): (r: Result<string, ErrorMessage>)
    ensures r.Err? <==> slugify(data) == ""
    ensures r.Err? ==> r.error == SlugEmpty
    ensures r.Ok? ==> r.value == slugify(data) && r.value != ""
  {
    var slug := slugify(data);
    if slug == "" then Err(SlugEmpty) else Ok(slug)
  }

  /** A slug cleaned once is accepted unchanged when cleaned again, for an idempotent slugify. */
  lemma CleanSlugStable(data: string, slugify: string -> string)
    requires forall s :: slugify(slugify(s)) == slugify(s)
    requires CleanSlug(data, slugify).Ok?
    ensures CleanSlug(CleanSlug(data, slugify).value, slugify) == CleanSlug(data, slugify)
  {
  }

  /**
   The new page's path: the parent's path, a slash and the slug when the
   node has a parent with a non-empty path; the slug alone otherwise.
   */
  function ComposePath(parent: Parent, slug: string): (path: string)
    ensures EndsWith(path, slug)
    ensures parent.Child? && parent.parentPath.Some? && parent.parentPath.value != "" ==>
      path == parent.parentPath.value + "/" + slug
    ensures !(parent.Child? && parent.parentPath.Some? && parent.parentPath.value != "") ==> path == slug
  {
    match parent
    case Child(parentPath) =>
      var p := if parentPath.Some? then parentPath.value else "";
      if p != "" then p + "/" + slug else slug
    case Root => slug
  }

  /** A composed path is never shorter than the slug, and longer exactly when a parent path was prefixed. */
  lemma ComposePathLength(parent: Parent, slug: string)
    ensures |ComposePath(parent, slug)| >= |slug|
    ensures |ComposePath(parent, slug)| > |slug| <==>
      parent.Child? && parent.parentPath.Some? && parent.parentPath.value != ""
  {
  }

  /** Django's `add_error`: record the error and drop the field from the cleaned data. */
  function AddError(state: FormState, field: Field, message: ErrorMessage): (r: FormState)
    ensures r.errors == state.errors + [FieldError(field, message)]
    ensures HasErrorOn(r, field)
    ensures field == SlugField ==> r.slug.None? && r.site == state.site
    ensures field == SiteField ==> r.site.None? && r.slug == state.slug
    ensures r.path == state.path
  {
    var r := state.(errors := state.errors + [FieldError(field, message)]);
    assert r.errors[|state.errors|].field == field;
    match field
    case SiteField => r.(site := None)
    case SlugField => r.(slug := None)
  }

  /**
   The form-level clean step. When field errors exist the cleaned data is
   returned untouched. Otherwise the path is composed and checked for
   uniqueness: on failure the error is attached to the slug field and no
   path is stored; on success the path is stored.
   */
  function Clean(state: FormState, parent: Parent, validate: string -> Option<string>): (r: FormState)
    requires Consistent(state) && state.path.None?
    ensures Consistent(r)
    ensures |state.errors| > 0 ==> r == state
    ensures |state.errors| == 0 && validate(ComposePath(parent, state.slug.value)).None? ==>
      r == state.(path := Some(ComposePath(parent, state.slug.value)))
    ensures |state.errors| == 0 && validate(ComposePath(parent, state.slug.value)).Some? ==>
      && r.path.None? && r.slug.None? && r.site == state.site
      && r.errors == [FieldError(SlugField, NotUnique(validate(ComposePath(parent, state.slug.value)).value))]
    ensures r.path.Some? ==> |r.errors| == 0 && EndsWith(r.path.value, state.slug.value)
  {
    if |state.errors| > 0 then state
    else
      var path := ComposePath(parent, state.slug.value);
      match validate(path)
      case Some(reason) =>
        var r := AddError(state, SlugField, NotUnique(reason));
        assert !HasErrorOn(r, SiteField) by {
          assert forall i :: 0 <= i < |r.errors| ==> r.errors[i].field == SlugField;
        }
        r
      case None => state.(path := Some(path))
  }

  /**
   The field clean steps: the site must be chosen; the slug must be given,
   at most 255 characters long, and survive slugification.
   */
  function CleanFields(site: Option<nat>, slugData: string, slugify: string -> string): (r: FormState)
    ensures Consistent(r) && r.path.None?
    ensures r.site == site
    ensures r.slug.Some? <==> slugData != "" && |slugData| <= SlugMaxLength && slugify(slugData) != ""
    ensures r.slug.Some? ==> r.slug.value == slugify(slugData)
  {
    var siteErrors := if site.None? then [FieldError(SiteField, Required)] else [];
    var slugResult :=
      if slugData == "" then Err(Required)
      else if |slugData| > SlugMaxLength then Err(MaxLength(SlugMaxLength, |slugData|))
      else CleanSlug(slugData, slugify);
    var r := match slugResult
      case Ok(slug) => FormState(site, Some(slug), None, siteErrors)
      case Err(e) => FormState(site, None, None, siteErrors + [FieldError(SlugField, e)]);
    assert forall i :: 0 <= i < |siteErrors| ==> siteErrors[i].field == SiteField;
    assert forall i :: 0 <= i < |r.errors| ==>
      (r.errors[i].field == SiteField <==> i < |siteErrors|);
    assert slugResult.Err? ==> r.errors[|r.errors| - 1].field == SlugField;
    assert site.None? ==> r.errors[0].field == SiteField;
    r
  }

  /** The whole validation of a submitted duplicate form. */
  function FullClean(site: Option<nat>, slugData: string, slugify: string -> string,
                     parent: Parent, validate: string -> Option<string>): (r: FormState)
    ensures Consistent(r)
  {
    Clean(CleanFields(site, slugData, slugify), parent, validate)
  }

  /** The form is valid when its full clean leaves no error. */
  predicate IsValid(site: Option<nat>, slugData: string, slugify: string -> string,
                    parent: Parent, validate: string -> Option<string>) {
    |FullClean(site, slugData, slugify, parent, validate).errors| == 0
  }

  /**
   A submitted form is valid exactly when a site is chosen, the slug input
   is non-empty, within the length limit and non-empty once slugified, and
   the path built from it passes the uniqueness check; a valid form carries
   that path and the slugified slug.
   */
  lemma ValidIff(site: Option<nat>, slugData: string, slugify: string -> string,
                 parent: Parent, validate: string -> Option<string>)
    ensures IsValid(site, slugData, slugify, parent, validate) <==>
      && site.Some?
      && slugData != "" && |slugData| <= SlugMaxLength && slugify(slugData) != ""
      && validate(ComposePath(parent, slugify(slugData))).None?
    ensures IsValid(site, slugData, slugify, parent, validate) ==>
      var r := FullClean(site, slugData, slugify, parent, validate);
      r.slug == Some(slugify(slugData)) && r.path == Some(ComposePath(parent, slugify(slugData)))
  {
  }
}
