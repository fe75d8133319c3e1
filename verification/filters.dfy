/**
 The four list filters of the page-content changelist (language,
 unpublished, template, author), each as its lookups, its `queryset`
 restriction and its `choices` listing.
 */
module Filters {
  import opened Wrappers
  import opened Content
  import Seqs

  /** One lookup offered by a filter: the value put in the query string and its display title. */
  datatype Lookup = Lookup(key: string, title: string)

  /** The changelist query string a choice links to: without the filter's parameter, or with it set to a value. */
  datatype QueryString = Without(param: string) | With(param: string, value: string)

  /** One entry of a filter's sidebar listing. */
  datatype Choice = Choice(selected: bool, query: QueryString, display: string)

  const LanguageParam := "language"
  const UnpublishedParam := "unpublished"
  const TemplateParam := "template"
  const AuthorParam := "created_by"

  /** Python truthiness of an optional string parameter: absent and empty are both false. */
  predicate Truthy(value: Option<string>) {
    value.Some? && value.value != ""
  }

  /** No two lookups share a key. */
  predicate DistinctKeys(lookups: seq<Lookup>) {
    forall i, j :: 0 <= i < j < |lookups| ==> lookups[i].key != lookups[j].key
  }

  // ---------------------------------------------------------------------
  // Choices (shared by every filter)
  // ---------------------------------------------------------------------

  /** One choice per lookup, each selected iff the current value is the lookup's key. */
  function LookupChoices(param: string, value: Option<string>, lookups: seq<Lookup>): (r: seq<Choice>)
    ensures |r| == |lookups|
    ensures forall i :: 0 <= i < |r| ==>
      r[i] == Choice(value == Some(lookups[i].key), With(param, lookups[i].key), lookups[i].title)
  {
    if |lookups| == 0 then []
    else
      [Choice(value == Some(lookups[0].key), With(param, lookups[0].key), lookups[0].title)]
      + LookupChoices(param, value, lookups[1..])
  }

  /**
   A filter's listing: a leading "clear" entry, selected iff no value is
   given and linking to the changelist without the parameter, followed by
   one entry per lookup.
   */
  function Choices(param: string, clearLabel: string, value: Option<string>, lookups: seq<Lookup>): (r: seq<Choice>)
    ensures |r| == 1 + |lookups|
    ensures r[0] == Choice(value.None?, Without(param), clearLabel)
    ensures forall i :: 1 <= i < |r| ==>
      r[i] == Choice(value == Some(lookups[i - 1].key), With(param, lookups[i - 1].key), lookups[i - 1].title)
  {
    [Choice(value.None?, Without(param), clearLabel)] + LookupChoices(param, value, lookups)
  }

  /** The indices of the selected entries of a listing. */
  function SelectedIndices(r: seq<Choice>): set<nat> {
    set i: nat | i < |r| && r[i].selected
  }

  /** With no value given, the "clear" entry is the only selected one. */
  lemma NoValueSelectsOnlyClear(param: string, clearLabel: string, lookups: seq<Lookup>)
    ensures SelectedIndices(Choices(param, clearLabel, None, lookups)) == {0}
  {
  }

  /**
   With a value given, the "clear" entry is not selected, and when the
   lookup keys are distinct at most one entry is: the one for the lookup
   whose key is the value, if there is one.
   */
  lemma ValueSelectsAtMostOne(param: string, clearLabel: string, v: string, lookups: seq<Lookup>)
    requires DistinctKeys(lookups)
    ensures var sel := SelectedIndices(Choices(param, clearLabel, Some(v), lookups));
      && 0 !in sel
      && (forall j :: 0 <= j < |lookups| && lookups[j].key == v ==> sel == {j + 1})
      && ((forall j :: 0 <= j < |lookups| ==> lookups[j].key != v) ==> sel == {})
  {
  }

  // ---------------------------------------------------------------------
  // Language filter
  // ---------------------------------------------------------------------

  /** The language the filter restricts to: the given value, or the request's site language when none is given. */
  function EffectiveLanguage(value: Option<string>, requestLanguage: string): string {
    if value.None? then requestLanguage else value.value
  }

  /** The records in the filter's language, each as often as in the input. */
  function LanguageQueryset(value: Option<string>, requestLanguage: string, qs: seq<PageContent>): (r: seq<PageContent>)
    ensures forall i :: 0 <= i < |r| ==> r[i].language == EffectiveLanguage(value, requestLanguage)
    ensures forall c :: multiset(r)[c] ==
                        (if c.language == EffectiveLanguage(value, requestLanguage) then multiset(qs)[c] else 0)
  {
    var language := if value.None? then requestLanguage else value.value;
    Seqs.Filter(qs, (c: PageContent) => c.language == language)
  }

  /** Without a value the language filter still filters: it behaves as if the request's language had been chosen. */
  lemma LanguageDefaultIsRequestLanguage(requestLanguage: string, qs: seq<PageContent>)
    ensures LanguageQueryset(None, requestLanguage, qs) == LanguageQueryset(Some(requestLanguage), requestLanguage, qs)
    ensures forall c :: c in LanguageQueryset(None, requestLanguage, qs) ==> c.language == requestLanguage
  {
  }

  /** The language filter's listing: "Current" first, then the configured languages. */
  function LanguageChoices(value: Option<string>, languages: seq<Lookup>): (r: seq<Choice>)
    ensures |r| == 1 + |languages|
    ensures r[0].display == "Current" && (r[0].selected <==> value.None?)
    ensures forall i :: 1 <= i < |r| ==> (r[i].selected <==> value == Some(languages[i - 1].key))
  {
    Choices(LanguageParam, "Current", value, languages)
  }

  // ---------------------------------------------------------------------
  // Unpublished filter
  // ---------------------------------------------------------------------

  /** The single lookup of the unpublished filter. */
  function UnpublishedLookups(): (r: seq<Lookup>)
    ensures |r| == 1 && r[0].key == "1"
  {
    [Lookup("1", "Show")]
  }

  predicate IsUnpublished(c: PageContent) {
    HasVersionIn(c, Unpublished)
  }

  /**
   With value "1" the records having some unpublished version; with any
   other value, or none, the records having none.
   */
  function UnpublishedQueryset(value: Option<string>, qs: seq<PageContent>): (r: seq<PageContent>)
    ensures value == Some("1") ==>
      forall c :: multiset(r)[c] == if IsUnpublished(c) then multiset(qs)[c] else 0
    ensures value != Some("1") ==>
      forall c :: multiset(r)[c] == if IsUnpublished(c) then 0 else multiset(qs)[c]
  {
    if value == Some("1") then Seqs.Filter(qs, IsUnpublished)
    else Seqs.Filter(qs, (c: PageContent) => !IsUnpublished(c))
  }

  /** The "show" result and the result for any other value split the input: every record lands in exactly one. */
  lemma UnpublishedPartition(value: Option<string>, qs: seq<PageContent>)
    requires value != Some("1")
    ensures multiset(UnpublishedQueryset(Some("1"), qs)) + multiset(UnpublishedQueryset(value, qs)) == multiset(qs)
    ensures |UnpublishedQueryset(Some("1"), qs)| + |UnpublishedQueryset(value, qs)| == |qs|
  {
  }

  /** The unpublished filter's listing: "Hide" first, then "Show". */
  function UnpublishedChoices(value: Option<string>): (r: seq<Choice>)
    ensures |r| == 2
    ensures r[0].display == "Hide" && r[1].display == "Show"
    ensures (r[0].selected <==> value.None?) && (r[1].selected <==> value == Some("1"))
  {
    Choices(UnpublishedParam, "Hide", value, UnpublishedLookups())
  }

  // ---------------------------------------------------------------------
  // Template filter
  // ---------------------------------------------------------------------

  /**
   The template lookups: the current site's configured list when the
   site-templates setting has a non-empty one for the site's domain,
   otherwise the CMS's global template list.
   */
  function TemplateLookups(siteTemplates: map<string, seq<Lookup>>, domain: string, cmsTemplates: seq<Lookup>): (r: seq<Lookup>)
    ensures domain in siteTemplates && |siteTemplates[domain]| > 0 ==> r == siteTemplates[domain]
    ensures domain !in siteTemplates || |siteTemplates[domain]| == 0 ==> r == cmsTemplates
  {
    var templates := if domain in siteTemplates then Some(siteTemplates[domain]) else None;
    if templates.Some? && |templates.value| > 0 then templates.value else cmsTemplates
  }

  /** No value (or an empty one) keeps every record; otherwise exactly the records using that template. */
  function TemplateQueryset(value: Option<string>, qs: seq<PageContent>): (r: seq<PageContent>)
    ensures !Truthy(value) ==> r == qs
    ensures Truthy(value) ==> forall c :: multiset(r)[c] ==
                                         (if c.template == value.value then multiset(qs)[c] else 0)
  {
    if !Truthy(value) then qs
    else Seqs.Filter(qs, (c: PageContent) => c.template == value.value)
  }

  /** Applying the template filter a second time with the same value changes nothing. */
  lemma TemplateFilterIdempotent(t: string, qs: seq<PageContent>)
    requires t != ""
    ensures TemplateQueryset(Some(t), TemplateQueryset(Some(t), qs)) == TemplateQueryset(Some(t), qs)
  {
    var once := TemplateQueryset(Some(t), qs);
    Seqs.FilterAll(once, (c: PageContent) => c.template == t);
  }

  /** The template filter's listing: "All" first, then the template lookups. */
  function TemplateChoices(value: Option<string>, lookups: seq<Lookup>): (r: seq<Choice>)
    ensures |r| == 1 + |lookups|
    ensures r[0].display == "All" && (r[0].selected <==> value.None?)
    ensures forall i :: 1 <= i < |r| ==> (r[i].selected <==> value == Some(lookups[i - 1].key))
  {
    Choices(TemplateParam, "All", value, lookups)
  }

  /**
   Choosing an offered template (with distinct, non-empty keys) selects
   exactly that template's entry of the listing, and the changelist then
   holds exactly the records using that template.
   */
  lemma TemplateLookupChosen(siteTemplates: map<string, seq<Lookup>>, domain: string, cmsTemplates: seq<Lookup>,
                             k: nat, qs: seq<PageContent>)
    requires var lookups := TemplateLookups(siteTemplates, domain, cmsTemplates);
      k < |lookups| && DistinctKeys(lookups) && lookups[k].key != ""
    ensures var lookups := TemplateLookups(siteTemplates, domain, cmsTemplates);
      var t := lookups[k].key;
      && SelectedIndices(TemplateChoices(Some(t), lookups)) == {k + 1}
      && (forall c :: c in TemplateQueryset(Some(t), qs) <==> c in qs && c.template == t)
  {
    var lookups := TemplateLookups(siteTemplates, domain, cmsTemplates);
    ValueSelectsAtMostOne(TemplateParam, "All", lookups[k].key, lookups);
  }

  // ---------------------------------------------------------------------
  // Author filter
  // ---------------------------------------------------------------------

  /** The label of a user: the full name when it is non-empty, otherwise the username. */
  function DisplayName(u: User): string {
    if u.fullName != "" then u.fullName else u.username
  }

  /** Some record of `qs` has a version created by the user with primary key `pk`. */
  predicate IsAuthorIn(qs: seq<PageContent>, pk: UserId) {
    exists i :: 0 <= i < |qs| && HasVersionBy(qs[i], pk)
  }

  /** No two users share a primary key. */
  predicate DistinctPks(users: seq<User>) {
    forall i, j :: 0 <= i < j < |users| ==> users[i].pk != users[j].pk
  }

  /** The option listed for a user. */
  function AuthorOption(u: User): Lookup {
    Lookup(u.pk, DisplayName(u))
  }

  /**
   The author lookups: one option per user (in user-table order) who
   created a version of some record the admin lists.
   */
  function AuthorLookups(users: seq<User>, qs: seq<PageContent>): (r: seq<Lookup>)
    ensures |r| <= |users|
    ensures forall i :: 0 <= i < |r| ==>
      exists j :: 0 <= j < |users| && IsAuthorIn(qs, users[j].pk) && r[i] == AuthorOption(users[j])
    ensures forall j :: 0 <= j < |users| && IsAuthorIn(qs, users[j].pk) ==> AuthorOption(users[j]) in r
  {
    if |users| == 0 then []
    else
      var rest := AuthorLookups(users[1..], qs);
      assert forall j :: 1 <= j < |users| ==> users[j] == users[1..][j - 1];
      var u := users[0];
      if IsAuthorIn(qs, u.pk) then
        var r := [AuthorOption(u)] + rest;
        assert forall i :: 1 <= i < |r| ==> r[i] == rest[i - 1];
        r
      else rest
  }

  /** Dropping the first user keeps the primary keys distinct. */
  lemma DistinctPksTail(users: seq<User>)
    requires |users| > 0 && DistinctPks(users)
    ensures DistinctPks(users[1..])
  {
    var tail := users[1..];
    forall i, j | 0 <= i < j < |tail| ensures tail[i].pk != tail[j].pk {
      assert tail[i] == users[i + 1] && tail[j] == users[j + 1];
    }
  }

  /** With distinct user primary keys, no author is offered twice. */
  lemma {:induction false} AuthorLookupsDistinct(users: seq<User>, qs: seq<PageContent>)
    requires DistinctPks(users)
    ensures DistinctKeys(AuthorLookups(users, qs))
  {
    if |users| > 0 {
      var tail := users[1..];
      var rest := AuthorLookups(tail, qs);
      DistinctPksTail(users);
      AuthorLookupsDistinct(tail, qs);
      forall i | 0 <= i < |rest| ensures rest[i].key != users[0].pk {
        var x := rest[i];
        assert exists j :: 0 <= j < |tail| && IsAuthorIn(qs, tail[j].pk) && x == AuthorOption(tail[j]);
        var j :| 0 <= j < |tail| && IsAuthorIn(qs, tail[j].pk) && x == AuthorOption(tail[j]);
        assert tail[j] == users[j + 1];
      }
    }
  }

  /** Why a filter's value cannot be applied. */
  datatype LookupError = InvalidValue(value: string)

  /**
   No value (or an empty one) keeps every record. Otherwise the value is
   converted to a user primary key the way the ORM converts a lookup on the
   version's creator (`toPk`); a value it cannot convert is an error, and a
   converted one keeps the records having a version created by that user,
   each at most once.
   */
  function AuthorQueryset(value: Option<string>, qs: seq<PageContent>, toPk: string -> Option<UserId>)
    : (r: Result<seq<PageContent>, LookupError>)
    ensures !Truthy(value) ==> r == Ok(qs)
    ensures Truthy(value) && toPk(value.value).None? ==> r == Err(InvalidValue(value.value))
    ensures Truthy(value) && toPk(value.value).Some? ==>
      && r.Ok?
      && Seqs.NoDuplicates(r.value) && |r.value| <= |qs|
      && (forall c :: c in r.value <==> c in qs && HasVersionBy(c, toPk(value.value).value))
  {
    if Truthy(value) then
      match toPk(value.value)
      case None => Err(InvalidValue(value.value))
      case Some(pk) => Ok(Seqs.Distinct(Seqs.Filter(qs, (c: PageContent) => HasVersionBy(c, pk))))
    else Ok(qs)
  }
}
