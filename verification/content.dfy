/**
 The records the page admin lists: a page-content record (one language's
 content of a page) and the versions wrapping it. Only the attributes the
 admin reads are kept; the records are produced by the host CMS's query,
 which is not part of this model.
 */
module Content {
  import opened Wrappers

  /** Lifecycle state of a version, as defined by the versioning package. */
  datatype VersionState = Draft | Published | Unpublished | Archived

  /** A user's primary key in its string form (`force_str(user.pk)`). */
  type UserId = string

  /** A version: its primary key, lifecycle state, the user who created it and whether a version lock is held on it. */
  datatype Version = Version(pk: nat, state: VersionState, author: UserId, locked: bool)

  /**
   A page-content record as annotated by the admin's queryset.
   `path` is the annotated URL path of the page in the record's language
   (absent when the page has no URL in that language); `versions` lists the
   record's versions in the order the query yields them.
   */
  datatype PageContent = PageContent(
    pk: nat,
    pageId: nat,
    title: string,
    language: string,
    template: string,
    isHome: bool,
    path: Option<string>,
    versions: seq<Version>
  )

  /** A user of the site, as listed by the author filter. */
  datatype User = User(pk: UserId, fullName: string, username: string)

  /** The version the admin displays for a record: the first of its versions. */
  function GetVersion(c: PageContent): Version
    requires |c.versions| > 0
  {
    c.versions[0]
  }

  /** Some version of `c` is in state `s`. */
  predicate HasVersionIn(c: PageContent, s: VersionState) {
    exists i :: 0 <= i < |c.versions| && c.versions[i].state == s
  }

  /** Some version of `c` was created by `author`. */
  predicate HasVersionBy(c: PageContent, author: UserId) {
    exists i :: 0 <= i < |c.versions| && c.versions[i].author == author
  }
}
