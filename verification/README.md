# djangocms-pageadmin decision logic, in Dafny

djangocms-pageadmin replaces the django CMS admin changelist for page
contents. Most of it is glue around the host framework. This project models
the pure decisions inside that glue, and proves what they promise:

- **List filters** (`Filters`): the language, unpublished, template and
  author filters. Each has its lookups, its queryset restriction and its
  sidebar `choices` listing.
- **Duplicate form** (`Forms`): slug validation after slugification, and
  composition of the new page's path from the parent's path and the slug.
  It also covers where errors are attached and when a path is stored.
- **Toolbars** (`Toolbars`): swapping one class in the ordered toolbar
  registry while keeping its position. Also the rewrite of the admin menu's
  first item to the unfiltered changelist.
- **Changelist rows** (`Admin`): the row URL, the title icons and the
  eight row actions, each absent, disabled or enabled. The actions cell
  joins them in a fixed order. This part also covers the outcomes of the
  set-home endpoint.

A page-content record (`Content.PageContent`) is a value. It has a
language, a template, a home flag and an annotated URL path. It also has a
sequence of versions, each with a state, an author and a lock flag. Some
things from outside are passed in as parameters:

- the record sequence the admin's ORM query produces;
- the user's permission checks;
- the ORM's conversion of the author filter's value to a user key;
- Django's `slugify`;
- the CMS's URL-uniqueness validator.

Reversed URLs and rendered templates are opaque tokens (`Admin.Url`,
`Admin.ActionLink`). So the verified content is the branching.

Generic pieces live in `Seqs`:

- `Filter` stands for the ORM's `filter`/`exclude`;
- `Distinct` stands for `distinct()`, keeping first occurrences;
- `Contains` is Python's substring `in`.

The ordered dictionary the toolbar registry is rebuilt into is
`Toolbars.FromPairs`. A repeated key keeps its first position and takes the
last value.

Where the code and its description differ, the model follows the code:

- The template and author filters test the value's truthiness, so an
  empty value is "no filter". The language filter tests only `is None`,
  so an empty language value filters by the empty language.
- In the listing, the "clear" entry is selected only when the value is
  absent. With an empty value, no entry is selected.
- `_get_unpublish_link` tests `can_be_unpublished()` a second time when
  computing `disabled`. That test is dead after the first guard.
  `UnpublishLink` keeps it, and its contract shows that `disabled` depends
  only on the unpublish check.
- Django's `add_error` removes the field from the cleaned data. So after a
  uniqueness failure, `Clean` drops the slug as well as storing no path.

## Model

| member | source | states |
|---|---|---|
| Filters.Choices | djangocms_pageadmin/filters.py:27-40 | a listing has 1 + the number of lookups entries; the first clears the parameter and is selected iff no value is given; entry i+1 sets lookup i and is selected iff the value equals its key |
| Filters.NoValueSelectsOnlyClear | djangocms_pageadmin/filters.py:27-40 | with no value, the clear entry is the only selected entry |
| Filters.ValueSelectsAtMostOne | djangocms_pageadmin/filters.py:33-40 | with a value, the clear entry is unselected. With distinct keys, exactly the matching lookup's entry is selected, or none when no key matches |
| Filters.LanguageQueryset | djangocms_pageadmin/filters.py:21-25 | every result has the chosen language, or the request's language when none is chosen. Each record of that language is kept as often as it occurs; the others are dropped |
| Filters.LanguageDefaultIsRequestLanguage | djangocms_pageadmin/filters.py:21-25 | with no value the filter equals filtering by the request language, so the result is never unfiltered |
| Filters.LanguageChoices | djangocms_pageadmin/filters.py:27-40 | "Current" comes first and is selected iff no value is given; each language entry is selected iff the value is its code |
| Filters.UnpublishedLookups | djangocms_pageadmin/filters.py:47-48 | the only lookup is "1" |
| Filters.UnpublishedQueryset | djangocms_pageadmin/filters.py:50-55 | value "1" keeps exactly the records with an unpublished version; any other value, or none, keeps exactly those without one |
| Filters.UnpublishedPartition | djangocms_pageadmin/filters.py:50-55 | the "1" result and the result for any other value together hold every input record exactly once |
| Filters.UnpublishedChoices | djangocms_pageadmin/filters.py:57-70 | two entries, "Hide" then "Show"; Hide is selected iff no value, Show iff the value is "1" |
| Filters.TemplateLookups | djangocms_pageadmin/filters.py:77-84 | the site's configured list when it exists and is non-empty, otherwise the CMS's global template list |
| Filters.TemplateLookupChosen | djangocms_pageadmin/filters.py:77-105 | with distinct non-empty keys, choosing an offered template selects exactly its listing entry and keeps exactly the records using it |
| Filters.TemplateQueryset | djangocms_pageadmin/filters.py:86-90 | an absent or empty value returns the input unchanged; otherwise exactly the records with that template, with their multiplicity |
| Filters.TemplateFilterIdempotent | djangocms_pageadmin/filters.py:86-90 | applying the same template filter twice equals applying it once |
| Filters.TemplateChoices | djangocms_pageadmin/filters.py:92-105 | "All" comes first and is selected iff no value is given; each template entry is selected iff the value is its name |
| Filters.AuthorLookups | djangocms_pageadmin/filters.py:116-127 | every option is some listed user who authored a version, labelled by full name or username; every such user has an option |
| Filters.AuthorLookupsDistinct | djangocms_pageadmin/filters.py:119-127 | with distinct user keys, no author is offered twice |
| Filters.AuthorQueryset | djangocms_pageadmin/filters.py:129-132 | an absent or empty value is the identity; a value the ORM cannot convert to a user key is an error; otherwise the result has no duplicates and holds exactly the records with a version by the converted user |
| Seqs.Filter | djangocms_pageadmin/filters.py:25 | keeps exactly the elements meeting the predicate, each as often as in the input |
| Seqs.FilterAppend | djangocms_pageadmin/filters.py:25 | filtering distributes over concatenation, so kept records stay in the queryset's order |
| Seqs.Distinct | djangocms_pageadmin/filters.py:131 | the result has no duplicates and holds the same elements; an input without duplicates is returned unchanged |
| Forms.CleanSlug | djangocms_pageadmin/forms.py:27-31 | fails with "Slug must not be empty." iff slugifying gives the empty string; otherwise returns the non-empty slugified value |
| Forms.CleanSlugStable | djangocms_pageadmin/forms.py:27-31 | for an idempotent slugify, cleaning an already cleaned slug gives it back unchanged |
| Forms.ComposePath | djangocms_pageadmin/forms.py:41-46 | parent path + "/" + slug when the node has a parent with a non-empty path, the slug otherwise; the path always ends with the slug |
| Forms.ComposePathLength | djangocms_pageadmin/forms.py:41-46 | the path is longer than the slug exactly when a parent path was prefixed |
| Forms.AddError | djangocms_pageadmin/forms.py:55-56 | the error is appended to the field's errors and the field leaves the cleaned data |
| Forms.Clean | djangocms_pageadmin/forms.py:33-60 | with field errors, the state is returned untouched. A failed uniqueness check puts the error on slug and stores no path. Otherwise the composed path is stored, and a stored path ends with the slug |
| Forms.CleanFields | djangocms_pageadmin/forms.py:15-31 | a slug is cleaned iff the input is non-empty, at most 255 characters and non-empty after slugify; it is then the slugified input |
| Forms.FullClean | djangocms_pageadmin/forms.py:27-60 | every field with an error is absent from the cleaned data, and every field without one is present |
| Forms.ValidIff | djangocms_pageadmin/forms.py:15-60 | valid iff a site is chosen, the slug input passes its checks and the composed path is unique. A valid form carries the slugified slug and that path |
| Toolbars.Put | djangocms_pageadmin/cms_toolbars.py:36-41 | setting a key keeps names unique and adds the key; a new key is appended, an existing one keeps its index and takes the new entry while every other entry stays |
| Toolbars.FromPairs | djangocms_pageadmin/cms_toolbars.py:36-41 | the ordered dictionary built from pairs has unique names, the same names, and equals the pairs when their names are unique |
| Toolbars.ReplaceToolbar | djangocms_pageadmin/cms_toolbars.py:29-41 | the rebuilt registry never registers a name twice |
| Toolbars.ReplaceToolbarInPlace | djangocms_pageadmin/cms_toolbars.py:29-41 | if the new name is not another key: length and order are kept, the old entry becomes (new name, new class) at its index, and all other entries are unchanged |
| Toolbars.ReplaceToolbarAbsent | djangocms_pageadmin/cms_toolbars.py:36-41 | when the old class is not registered, the registry is unchanged |
| Toolbars.ReplaceToolbarCollision | djangocms_pageadmin/cms_toolbars.py:36-41 | when the new name is already another entry's, the registry loses one entry |
| Toolbars.ChangeAdminMenu | djangocms_pageadmin/cms_toolbars.py:14-26 | a missing menu and an empty one are errors; otherwise the first item's URL becomes the changelist URL only when it has a URL containing "admin/cms/pagecontent/", the menu is otherwise unchanged, and other items never change |
| Toolbars.ChangeAdminMenuIdempotent | djangocms_pageadmin/cms_toolbars.py:21-26 | rewriting a rewritten menu again with the same changelist URL changes nothing more |
| Seqs.ContainsIff | djangocms_pageadmin/cms_toolbars.py:24 | the substring test holds iff the pattern occurs at some index |
| Admin.RowUrl | djangocms_pageadmin/admin.py:99-109 | no link iff the page is neither home nor has a path; a non-empty path wins; the home page without a path links to the site root |
| Admin.RowUrlSetHome | djangocms_pageadmin/admin.py:200-215 | the home row always has a link (the url column links it to the site root) and never offers set-home; a row without a link always offers set-home, enabled |
| Admin.IsLocked | djangocms_pageadmin/admin.py:129-133 | the lock icon shows iff the displayed version is a draft and locked |
| Admin.GetTitle | djangocms_pageadmin/admin.py:112-138 | the title is kept; the home icon shows iff the page is home; the lock icon shows iff the version is a locked draft |
| Admin.GetListActions | djangocms_pageadmin/admin.py:147-157 | eight actions, each exactly once, each at its fixed position |
| Admin.SetHomeLink | djangocms_pageadmin/admin.py:200-215 | absent iff the page is already home; otherwise links to the set-home endpoint |
| Admin.EditLink | djangocms_pageadmin/admin.py:165-185 | absent unless the version is a draft or published; disabled iff requested or the edit check fails |
| Admin.UnpublishLink | djangocms_pageadmin/admin.py:217-239 | absent iff the version cannot be unpublished; disabled iff requested or the unpublish check fails |
| Admin.ActionOutput | djangocms_pageadmin/admin.py:159-260 | each action yields only its own icon; preview, duplicate, manage-versions and both settings links are always present, disabled only on request |
| Admin.Join | djangocms_pageadmin/admin.py:270-274 | the joined cell holds only present links from the outputs, and every present link |
| Admin.JoinInRankOrder | djangocms_pageadmin/admin.py:270-274 | joining keeps the present links in action order |
| Admin.Outputs | djangocms_pageadmin/admin.py:267-274 | the output at each action's position is that action's output, and a present link there carries that action |
| Admin.ListActions | djangocms_pageadmin/admin.py:262-277 | the cell holds exactly the present action links, each its action's output, in the fixed order |
| Admin.ListActionsAlwaysOffered | djangocms_pageadmin/admin.py:159-260 | preview, duplicate, manage-versions, basic and advanced settings are always in the cell, enabled |
| Admin.ListActionsConditional | djangocms_pageadmin/admin.py:165-239 | set-home is offered iff the page is not home; edit iff draft or published, disabled iff the edit check fails; unpublish iff unpublishable, disabled iff the unpublish check fails |
| Admin.OffersIff | djangocms_pageadmin/admin.py:262-277 | an action is offered in the cell iff its output is a link |
| Admin.LockedRowActions | djangocms_pageadmin/admin.py:129-239 | a row showing the lock icon offers edit and does not offer unpublish |
| Admin.SetHomeView | djangocms_pageadmin/admin.py:358-393 | non-POST gives 405, then a missing record 404, no permission forbidden, an ineligible page 400. Otherwise it redirects to the changelist, with the restart trigger iff the old home tree exists with apphooks or the new tree has apphooks |

## Left out

- ORM query composition in `get_queryset` (site filtering, URL-path and lock annotations, prefetching, ordering): the model takes its output as a record sequence.
- The page copy in `duplicate_view` (page copy, content creation, extension and plugin copy, messages, rendering): host CMS calls with transactional side effects.
- `slugify`, `validate_url_uniqueness`, `reverse`, `render_to_string`, `format_html`: parameters or opaque tokens.
- The versioning package's `check_edit_redirect` and `check_unpublish`: parameters (`Admin.Checks`).
- The versioning package's `can_be_unpublished` is not part of this model. It is taken to be "the version is published", the transition it guards.
- The locking package's `version_is_locked` is a flag on the version.
- `set_as_homepage` and `has_apphooks` are inputs to the set-home endpoint (`Admin.HomeCandidate`). Its login and admin wrapping and its transaction are not modelled.
- Filters.UnpublishedQueryset: reads `filter(versions__state=…)` as "some version matches". The ORM's join would list a record once per matching version. The versioning package gives each content exactly one version, so nothing differs in practice.
- The author filter's `choices` come from the framework's list-filter base class, which is not part of this model.
- Forms.CleanFields: the site field's "invalid choice" error is folded into a missing site. The slug field's whitespace stripping is assumed done by the caller.
- The state, author and modified-date columns are plain accessors of the displayed version.
- `monkeypatch.py`, `helpers.py`, the JavaScript, the CSV export, settings, packaging and test scaffolding: framework reflection, DOM code or configuration.
