/**
 The page-content changelist's per-row decisions: which URL a row shows,
 which icons decorate its title, which action links its actions cell holds
 (absent, disabled or enabled), and the outcome of the set-home endpoint.
 URL reversing and template rendering are modelled as opaque tokens; the
 versioning package's permission checks are supplied by the caller.
 */
module Admin {
  import opened Wrappers
  import opened Content
  import Seqs

  /** Reversed URLs, as tokens naming the route and its arguments. */
  datatype Url =
    | PagesRoot(language: string)
    | PageDetails(language: string, path: string)
    | PreviewUrl(contentPk: nat)
    | EditRedirect(versionPk: nat)
    | DuplicateContent(contentPk: nat)
    | SetHomeContent(contentPk: nat)
    | UnpublishVersion(versionPk: nat)
    | VersionList(contentPk: nat)
    | ContentChange(contentPk: nat)
    | PageAdvanced(pagePk: nat)
    | Changelist

  /** The row actions, each rendered from its own icon template. */
  datatype Action =
    | SetHome | Preview | Edit | Duplicate | Unpublish | ManageVersions | BasicSettings | AdvancedSettings

  /** What one action contributes to a row: nothing, or its icon linking to a URL, possibly disabled. */
  datatype ActionLink = Absent | Icon(action: Action, url: Url, disabled: bool)

  /**
   The requesting user's permission checks on a version, as the versioning
   package answers them (`check_edit_redirect`, `check_unpublish`).
   */
  datatype Checks = Checks(canEdit: Version -> bool, canUnpublish: Version -> bool)

  // ---------------------------------------------------------------------
  // Row URL and title icons
  // ---------------------------------------------------------------------

  /** The record's page has a non-empty URL path in the record's language. */
  predicate HasPath(c: PageContent) {
    c.path.Some? && c.path.value != ""
  }

  /**
   The link shown in a row's URL column: the page's own path when it has
   one, else the site root for the home page, else nothing.
   */
  function RowUrl(c: PageContent): (r: Option<Url>)
    ensures r.None? <==> !c.isHome && !HasPath(c)
    ensures HasPath(c) ==> r == Some(PageDetails(c.language, c.path.value))
    ensures c.isHome && !HasPath(c) ==> r == Some(PagesRoot(c.language))
  {
    var url := if c.isHome then Some(PagesRoot(c.language)) else None;
    if HasPath(c) then Some(PageDetails(c.language, c.path.value)) else url
  }

  /** The lock icon is shown exactly when the displayed version is a locked draft. */
  function IsLocked(c: PageContent): (shown: bool)
    requires |c.versions| > 0
    ensures shown <==> c.versions[0].state == Draft && c.versions[0].locked
  {
    var version := GetVersion(c);
    version.state == Draft && version.locked
  }

  /** The home icon is shown for the site's home page. */
  function IsHome(c: PageContent): bool {
    c.isHome
  }

  /** The title column: the home icon, the lock icon, then the title. */
  datatype TitleCell = TitleCell(homeIcon: bool, lockIcon: bool, title: string)

  /** The title column never hides the title and decorates it with exactly the home and lock icons that apply. */
  function GetTitle(c: PageContent): (r: TitleCell)
    requires |c.versions| > 0
    ensures r.title == c.title
    ensures r.homeIcon <==> c.isHome
    ensures r.lockIcon <==> GetVersion(c).state == Draft && GetVersion(c).locked
  {
    TitleCell(IsHome(c), IsLocked(c), c.title)
  }

  // ---------------------------------------------------------------------
  // Action links
  // ---------------------------------------------------------------------

  /** The fixed order of the row actions. */
  function GetListActions(): (r: seq<Action>)
    ensures |r| == 8 && Seqs.NoDuplicates(r)
    ensures forall a: Action :: Rank(a) < |r| && r[Rank(a)] == a
  {
    var r := [SetHome, Preview, Edit, Duplicate, Unpublish, ManageVersions, BasicSettings, AdvancedSettings];
    r
  }

  /** The position of an action in the fixed order. */
  function Rank(a: Action): nat {
    match a
    case SetHome => 0
    case Preview => 1
    case Edit => 2
    case Duplicate => 3
    case Unpublish => 4
    case ManageVersions => 5
    case BasicSettings => 6
    case AdvancedSettings => 7
  }

  /** The versioning package allows unpublishing only a published version. */
  predicate CanBeUnpublished(v: Version) {
    v.state == Published
  }

  /** Only draft and published versions can be edited. */
  predicate Editable(v: Version) {
    v.state == Draft || v.state == Published
  }

  /** Set-home: absent for the page that already is home, otherwise a link to the set-home endpoint. */
  function SetHomeLink(c: PageContent, disabled: bool): (r: ActionLink)
    ensures r.Absent? <==> c.isHome
    ensures r.Icon? ==> r == Icon(SetHome, SetHomeContent(c.pk), disabled)
  {
    if c.isHome then Absent
    else Icon(SetHome, SetHomeContent(c.pk), disabled)
  }

  /**
   Edit: absent unless the displayed version is a draft or published;
   disabled when the caller asked for it or the edit check refuses the user.
   */
  function EditLink(c: PageContent, checks: Checks, disabled: bool): (r: ActionLink)
    requires |c.versions| > 0
    ensures r.Absent? <==> !Editable(GetVersion(c))
    ensures r.Icon? ==> r.action == Edit && r.url == EditRedirect(GetVersion(c).pk)
    ensures r.Icon? ==> (r.disabled <==> disabled || !checks.canEdit(GetVersion(c)))
  {
    var version := GetVersion(c);
    if version.state != Draft && version.state != Published then Absent
    else
      var disabled' := if !checks.canEdit(version) then true else disabled;
      Icon(Edit, EditRedirect(version.pk), disabled')
  }

  /**
   Unpublish: absent unless the displayed version can be unpublished;
   disabled when the caller asked for it or the unpublish check refuses the user.
   */
  function UnpublishLink(c: PageContent, checks: Checks, disabled: bool): (r: ActionLink)
    requires |c.versions| > 0
    ensures r.Absent? <==> !CanBeUnpublished(GetVersion(c))
    ensures r.Icon? ==> r.action == Unpublish && r.url == UnpublishVersion(GetVersion(c).pk)
    ensures r.Icon? ==> (r.disabled <==> disabled || !checks.canUnpublish(GetVersion(c)))
  {
    var version := GetVersion(c);
    if !CanBeUnpublished(version) then Absent
    else
      var disabled' := if !CanBeUnpublished(version) || !checks.canUnpublish(version) then true else disabled;
      Icon(Unpublish, UnpublishVersion(version.pk), disabled')
  }

  /** The output of one action for a row; the unconditional actions always link, disabled only on request. */
  function ActionOutput(a: Action, c: PageContent, checks: Checks, disabled: bool): (r: ActionLink)
    requires |c.versions| > 0
    ensures r.Icon? ==> r.action == a
    ensures a !in {SetHome, Edit, Unpublish} ==> r.Icon? && r.disabled == disabled
  {
    match a
    case SetHome => SetHomeLink(c, disabled)
    case Preview => Icon(Preview, PreviewUrl(c.pk), disabled)
    case Edit => EditLink(c, checks, disabled)
    case Duplicate => Icon(Duplicate, DuplicateContent(c.pk), disabled)
    case Unpublish => UnpublishLink(c, checks, disabled)
    case ManageVersions => Icon(ManageVersions, VersionList(c.pk), disabled)
    case BasicSettings => Icon(BasicSettings, ContentChange(c.pk), disabled)
    case AdvancedSettings => Icon(AdvancedSettings, PageAdvanced(c.pageId), disabled)
  }

  /** What an action's output adds to the joined cell: nothing for an absent link, its icon otherwise. */
  function Rendered(l: ActionLink): seq<ActionLink> {
    if l.Absent? then [] else [l]
  }

  /** The links of `s` appear in strictly increasing action order. */
  predicate InRankOrder(s: seq<ActionLink>) {
    forall i, j :: 0 <= i < j < |s| && s[i].Icon? && s[j].Icon? ==> Rank(s[i].action) < Rank(s[j].action)
  }

  /** The action outputs concatenated, as the cell's join does: the present links, in order, absent ones dropped. */
  function Join(outputs: seq<ActionLink>): (r: seq<ActionLink>)
    ensures |r| <= |outputs|
    ensures forall i :: 0 <= i < |r| ==> r[i].Icon? && r[i] in outputs
    ensures forall l :: l in outputs && l.Icon? ==> l in r
  {
    if |outputs| == 0 then []
    else Rendered(outputs[0]) + Join(outputs[1..])
  }

  /** Dropping the absent links keeps the present ones in action order. */
  lemma {:induction false} JoinInRankOrder(outputs: seq<ActionLink>)
    requires InRankOrder(outputs)
    ensures InRankOrder(Join(outputs))
  {
    if |outputs| > 0 {
      var tail := outputs[1..];
      assert InRankOrder(tail) by {
        forall i, j | 0 <= i < j < |tail| && tail[i].Icon? && tail[j].Icon?
          ensures Rank(tail[i].action) < Rank(tail[j].action)
        {
          assert tail[i] == outputs[i + 1] && tail[j] == outputs[j + 1];
        }
      }
      JoinInRankOrder(tail);
      var rest := Join(tail);
      var r := Join(outputs);
      if outputs[0].Icon? {
        assert r == [outputs[0]] + rest;
        forall j | 0 < j < |r| ensures Rank(r[0].action) < Rank(r[j].action) {
          assert rest[j - 1] in tail;
          var k :| 0 <= k < |tail| && tail[k] == rest[j - 1];
          assert outputs[k + 1] == r[j];
        }
      } else {
        assert r == rest;
      }
    }
  }

  /** Every action's output for a row, with the default (not disabled) flag, in the fixed order. */
  function Outputs(c: PageContent, checks: Checks): (r: seq<ActionLink>)
    requires |c.versions| > 0
    ensures |r| == 8
    ensures forall a: Action :: r[Rank(a)] == ActionOutput(a, c, checks, false)
    ensures forall i :: 0 <= i < |r| && r[i].Icon? ==> Rank(r[i].action) == i
  {
    var actions := GetListActions();
    seq(|actions|, i requires 0 <= i < |actions| => ActionOutput(actions[i], c, checks, false))
  }

  /**
   The actions cell of a row: the outputs of all actions joined in the
   fixed order. It holds exactly the present links, each once, ordered as
   the actions are.
   */
  function ListActions(c: PageContent, checks: Checks): (r: seq<ActionLink>)
    requires |c.versions| > 0
    ensures |r| <= 8
    ensures forall i :: 0 <= i < |r| ==> r[i].Icon? && r[i] == ActionOutput(r[i].action, c, checks, false)
    ensures forall a: Action :: ActionOutput(a, c, checks, false).Icon? ==> ActionOutput(a, c, checks, false) in r
    ensures forall i, j :: 0 <= i < j < |r| ==> Rank(r[i].action) < Rank(r[j].action)
  {
    var outputs := Outputs(c, checks);
    assert InRankOrder(outputs);
    JoinInRankOrder(outputs);
    var r := Join(outputs);
    assert forall i :: 0 <= i < |r| ==> r[i] == outputs[Rank(r[i].action)];
    r
  }

  /** An action occurs in the cell. */
  predicate Offers(cell: seq<ActionLink>, a: Action) {
    exists i :: 0 <= i < |cell| && cell[i].Icon? && cell[i].action == a
  }

  /**
   The actions a row's cell offers unconditionally: preview, duplicate,
   manage-versions and both settings links, all enabled.
   */
  lemma ListActionsAlwaysOffered(c: PageContent, checks: Checks)
    requires |c.versions| > 0
    ensures var r := ListActions(c, checks);
      && Icon(Preview, PreviewUrl(c.pk), false) in r
      && Icon(Duplicate, DuplicateContent(c.pk), false) in r
      && Icon(ManageVersions, VersionList(c.pk), false) in r
      && Icon(BasicSettings, ContentChange(c.pk), false) in r
      && Icon(AdvancedSettings, PageAdvanced(c.pageId), false) in r
  {
    assert ActionOutput(Preview, c, checks, false) == Icon(Preview, PreviewUrl(c.pk), false);
    assert ActionOutput(Duplicate, c, checks, false) == Icon(Duplicate, DuplicateContent(c.pk), false);
    assert ActionOutput(ManageVersions, c, checks, false) == Icon(ManageVersions, VersionList(c.pk), false);
    assert ActionOutput(BasicSettings, c, checks, false) == Icon(BasicSettings, ContentChange(c.pk), false);
    assert ActionOutput(AdvancedSettings, c, checks, false) == Icon(AdvancedSettings, PageAdvanced(c.pageId), false);
  }

  /**
   The actions a row's cell offers conditionally: set-home unless the page
   is home; edit for a draft or published version, disabled when the edit
   check refuses; unpublish for a published version, disabled when the
   unpublish check refuses.
   */
  lemma ListActionsConditional(c: PageContent, checks: Checks)
    requires |c.versions| > 0
    ensures var r := ListActions(c, checks);
      && (Offers(r, SetHome) <==> !c.isHome)
      && (!c.isHome ==> Icon(SetHome, SetHomeContent(c.pk), false) in r)
      && (Offers(r, Edit) <==> Editable(GetVersion(c)))
      && (Editable(GetVersion(c)) ==>
            Icon(Edit, EditRedirect(GetVersion(c).pk), !checks.canEdit(GetVersion(c))) in r)
      && (Offers(r, Unpublish) <==> CanBeUnpublished(GetVersion(c)))
      && (CanBeUnpublished(GetVersion(c)) ==>
            Icon(Unpublish, UnpublishVersion(GetVersion(c).pk), !checks.canUnpublish(GetVersion(c))) in r)
  {
    OffersIff(c, checks, SetHome);
    OffersIff(c, checks, Edit);
    OffersIff(c, checks, Unpublish);
  }

  /** An action is offered in the cell exactly when its output is a link. */
  lemma OffersIff(c: PageContent, checks: Checks, a: Action)
    requires |c.versions| > 0
    ensures Offers(ListActions(c, checks), a) <==> ActionOutput(a, c, checks, false).Icon?
  {
  }

  /**
   The row link and the set-home action complement each other: the home
   row always has a link and never offers set-home, and a row without a
   link always offers it, enabled.
   */
  lemma RowUrlSetHome(c: PageContent, checks: Checks)
    requires |c.versions| > 0
    ensures c.isHome ==> RowUrl(c).Some? && !Offers(ListActions(c, checks), SetHome)
    ensures RowUrl(c).None? ==> Icon(SetHome, SetHomeContent(c.pk), false) in ListActions(c, checks)
  {
    ListActionsConditional(c, checks);
  }

  /** A row whose title shows the lock icon offers the edit action and no unpublish action. */
  lemma LockedRowActions(c: PageContent, checks: Checks)
    requires |c.versions| > 0
    requires IsLocked(c)
    ensures Icon(Edit, EditRedirect(GetVersion(c).pk), !checks.canEdit(GetVersion(c))) in ListActions(c, checks)
    ensures !Offers(ListActions(c, checks), Unpublish)
  {
    ListActionsConditional(c, checks);
  }

  // ---------------------------------------------------------------------
  // Set-home endpoint
  // ---------------------------------------------------------------------

  /** A page tree affected by a home-page change, reduced to whether any page in it has an apphook. */
  datatype Tree = Tree(hasApphooks: bool)

  /**
   What the endpoint learns about the requested record's page: whether the
   user may change it, whether it is eligible to be home, and the trees
   the promotion would affect (the new home tree, and the old one if any).
   */
  datatype HomeCandidate = HomeCandidate(canChange: bool, potentialHome: bool, newHomeTree: Tree, oldHomeTree: Option<Tree>)

  /** The endpoint's response. */
  datatype Response =
    | MethodNotAllowed                               // 405: only POST is accepted
    | NotFound                                       // 404: no such record
    | Forbidden                                      // PermissionDenied
    | BadRequest                                     // 400: "The page is not eligible to be home."
    | Redirect(to: Url, restartTrigger: bool)        // page promoted; back to the changelist

  /** The apphook reload is needed when the old home tree or the new one carries an apphook. */
  predicate ApphooksAffected(candidate: HomeCandidate) {
    || (candidate.oldHomeTree.Some? && candidate.oldHomeTree.value.hasApphooks)
    || candidate.newHomeTree.hasApphooks
  }

  /**
   The set-home endpoint: POST only; then a missing record gives 404, a
   user without change permission is refused, an ineligible page gives
   400, and otherwise the page is promoted and the user is redirected to
   the changelist, firing the apphook restart trigger when apphooks are
   affected.
   */
  function SetHomeView(isPost: bool, lookup: Option<HomeCandidate>): (r: Response)
    ensures !isPost ==> r == MethodNotAllowed
    ensures isPost && lookup.None? ==> r == NotFound
    ensures isPost && lookup.Some? && !lookup.value.canChange ==> r == Forbidden
    ensures isPost && lookup.Some? && lookup.value.canChange && !lookup.value.potentialHome ==> r == BadRequest
    ensures r.Redirect? <==> isPost && lookup.Some? && lookup.value.canChange && lookup.value.potentialHome
    ensures r.Redirect? ==> r.to == Changelist && (r.restartTrigger <==> ApphooksAffected(lookup.value))
  {
    if !isPost then MethodNotAllowed
    else match lookup
      case None => NotFound
      case Some(page) =>
        if !page.canChange then Forbidden
        else if !page.potentialHome then BadRequest
        else
          var affected := if page.oldHomeTree.Some? then page.oldHomeTree.value.hasApphooks else false;
          var affected' := if !affected then page.newHomeTree.hasApphooks else affected;
          Redirect(Changelist, affected')
  }
}
