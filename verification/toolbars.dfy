/**
 The toolbar changes: replacing one toolbar class in the CMS's ordered
 toolbar registry while keeping its position, and pointing the admin
 menu's first item at the page-content changelist without filters.
 */
module Toolbars {
  import opened Wrappers
  import Seqs

  /** A toolbar class, identified by its module and class name. */
  datatype ToolbarClass = ToolbarClass(moduleName: string, className: string)

  /** The dotted name a class is registered under. */
  function QualifiedName(c: ToolbarClass): string {
    c.moduleName + "." + c.className
  }

  /** One registry entry: a registered name and the class registered under it. */
  datatype Entry = Entry(name: string, toolbar: ToolbarClass)

  /** The toolbar registry: an ordered dictionary from names to classes, as its sequence of entries. */
  type Registry = seq<Entry>

  /** The names registered. */
  function Names(reg: Registry): set<string> {
    set i | 0 <= i < |reg| :: reg[i].name
  }

  /** Registering one entry in front adds its name. */
  lemma NamesCons(e: Entry, reg: Registry)
    ensures Names([e] + reg) == Names(reg) + {e.name}
  {
    var r := [e] + reg;
    forall n ensures n in Names(r) <==> n in Names(reg) + {e.name} {
      if n in Names(r) {
        var i :| 0 <= i < |r| && r[i].name == n;
        if i > 0 { assert reg[i - 1].name == n; }
      }
      if n in Names(reg) {
        var i :| 0 <= i < |reg| && reg[i].name == n;
        assert r[i + 1].name == n;
      }
      if n == e.name { assert r[0].name == n; }
    }
  }

  /** No name is registered twice (always true of an ordered dictionary). */
  predicate UniqueNames(reg: Registry) {
    forall i, j :: 0 <= i < j < |reg| ==> reg[i].name != reg[j].name
  }

  /** The position of `name` in the registry, or -1 when it is not registered. */
  function IndexOf(reg: Registry, name: string): (k: int)
    ensures -1 <= k < |reg|
    ensures k >= 0 ==> reg[k].name == name
    ensures k < 0 ==> forall i :: 0 <= i < |reg| ==> reg[i].name != name
  {
    if |reg| == 0 then -1
    else if reg[|reg| - 1].name == name then |reg| - 1
    else IndexOf(reg[..|reg| - 1], name)
  }

  /** Appending an entry adds its name. */
  lemma NamesSnoc(reg: Registry, e: Entry)
    ensures Names(reg + [e]) == Names(reg) + {e.name}
  {
    var r := reg + [e];
    assert r[|reg|].name == e.name;
    forall n | n in Names(reg) ensures n in Names(r) {
      var i :| 0 <= i < |reg| && reg[i].name == n;
      assert r[i].name == n;
    }
  }

  /** Overwriting an entry with one of the same name keeps the names. */
  lemma NamesUpdate(reg: Registry, k: nat, e: Entry)
    requires k < |reg| && reg[k].name == e.name
    ensures Names(reg[k := e]) == Names(reg)
  {
    var r := reg[k := e];
    forall n | n in Names(reg) ensures n in Names(r) {
      var i :| 0 <= i < |reg| && reg[i].name == n;
      assert r[i].name == n;
    }
  }

  /** Setting a key of an ordered dictionary: an existing key keeps its position and takes the new value; a new key goes last. */
  function Put(reg: Registry, e: Entry): (r: Registry)
    requires UniqueNames(reg)
    ensures UniqueNames(r)
    ensures Names(r) == Names(reg) + {e.name}
    ensures e.name !in Names(reg) ==> r == reg + [e]
    ensures e.name in Names(reg) ==> exists k :: 0 <= k < |reg| && reg[k].name == e.name && r == reg[k := e]
  {
    var k := IndexOf(reg, e.name);
    if k >= 0 then
      NamesUpdate(reg, k, e);
      reg[k := e]
    else
      NamesSnoc(reg, e);
      reg + [e]
  }

  /** An ordered dictionary built from a list of pairs, inserting them left to right. */
  function FromPairs(pairs: seq<Entry>): (r: Registry)
    ensures UniqueNames(r)
    ensures Names(r) == Names(pairs)
    ensures UniqueNames(pairs) ==> r == pairs
  {
    if |pairs| == 0 then []
    else
      var init := pairs[..|pairs| - 1];
      assert pairs == init + [pairs[|pairs| - 1]];
      assert Names(pairs) == Names(init) + {pairs[|pairs| - 1].name};
      Put(FromPairs(init), pairs[|pairs| - 1])
  }

  /** An entry after renaming: the new class under its own name when the entry's name is the old class's. */
  function Renamed(e: Entry, oldClass: ToolbarClass, newClass: ToolbarClass): Entry {
    if e.name == QualifiedName(oldClass) then Entry(QualifiedName(newClass), newClass) else e
  }

  /** Rebuild the registry with the old class's entry swapped for the new class under its own name. */
  function ReplaceToolbar(reg: Registry, oldClass: ToolbarClass, newClass: ToolbarClass): (r: Registry)
    ensures UniqueNames(r)
  {
    FromPairs(seq(|reg|, i requires 0 <= i < |reg| => Renamed(reg[i], oldClass, newClass)))
  }

  /**
   When the newClass name is not already taken by another entry, replacement
   keeps the registry's length and order: the oldClass class's entry becomes
   the newClass class's entry at the same index, every other entry is unchanged.
   */
  lemma ReplaceToolbarInPlace(reg: Registry, oldClass: ToolbarClass, newClass: ToolbarClass)
    requires UniqueNames(reg)
    requires QualifiedName(newClass) == QualifiedName(oldClass) || QualifiedName(newClass) !in Names(reg)
    ensures var r := ReplaceToolbar(reg, oldClass, newClass);
      && |r| == |reg|
      && (forall i :: 0 <= i < |reg| && reg[i].name == QualifiedName(oldClass) ==>
            r[i] == Entry(QualifiedName(newClass), newClass))
      && (forall i :: 0 <= i < |reg| && reg[i].name != QualifiedName(oldClass) ==> r[i] == reg[i])
  {
  }

  /** When the old class is not registered, replacement leaves the registry as it was. */
  lemma ReplaceToolbarAbsent(reg: Registry, oldClass: ToolbarClass, newClass: ToolbarClass)
    requires UniqueNames(reg)
    requires QualifiedName(oldClass) !in Names(reg)
    ensures ReplaceToolbar(reg, oldClass, newClass) == reg
  {
  }

  /**
   When the newClass name is already registered under another entry, the two
   entries collapse into one: the registry loses an entry.
   */
  lemma ReplaceToolbarCollision(reg: Registry, oldClass: ToolbarClass, newClass: ToolbarClass)
    requires UniqueNames(reg)
    requires QualifiedName(oldClass) in Names(reg) && QualifiedName(newClass) in Names(reg)
    requires QualifiedName(newClass) != QualifiedName(oldClass)
    ensures |ReplaceToolbar(reg, oldClass, newClass)| == |reg| - 1
  {
    var pairs := seq(|reg|, i requires 0 <= i < |reg| => Renamed(reg[i], oldClass, newClass));
    NamesRenamed(reg, oldClass, newClass, pairs);
    UniqueNamesCard(ReplaceToolbar(reg, oldClass, newClass));
    UniqueNamesCard(reg);
  }

  /** Renaming the old class's entry to an already registered name removes the old name from the names. */
  lemma NamesRenamed(reg: Registry, oldClass: ToolbarClass, newClass: ToolbarClass, pairs: seq<Entry>)
    requires QualifiedName(newClass) in Names(reg) && QualifiedName(newClass) != QualifiedName(oldClass)
    requires pairs == seq(|reg|, i requires 0 <= i < |reg| => Renamed(reg[i], oldClass, newClass))
    ensures Names(pairs) == Names(reg) - {QualifiedName(oldClass)}
  {
    forall n | n in Names(pairs) ensures n in Names(reg) - {QualifiedName(oldClass)} {
      var i :| 0 <= i < |pairs| && pairs[i].name == n;
      assert reg[i].name in Names(reg);
    }
    forall n | n in Names(reg) - {QualifiedName(oldClass)} ensures n in Names(pairs) {
      var i :| 0 <= i < |reg| && reg[i].name == n;
      assert pairs[i].name == n;
    }
  }

  /** In a registry without repeated names, there are as many names as entries. */
  lemma {:induction false} UniqueNamesCard(reg: Registry)
    requires UniqueNames(reg)
    ensures |Names(reg)| == |reg|
  {
    if |reg| > 0 {
      UniqueNamesCard(reg[1..]);
      assert reg == [reg[0]] + reg[1..];
      NamesCons(reg[0], reg[1..]);
      assert reg[0].name !in Names(reg[1..]);
    }
  }

  // ---------------------------------------------------------------------
  // Admin menu
  // ---------------------------------------------------------------------

  /** The URL fragment identifying the page-content admin. */
  const PageContentAdminPath := "admin/cms/pagecontent/"

  /** An item of the admin menu: one with a URL, or one without (a sub-menu, a break). */
  datatype MenuItem = LinkItem(title: string, url: string) | OtherItem(title: string)

  /** The first menu item points into the page-content admin. */
  ghost predicate PointsToPageContentAdmin(item: MenuItem) {
    item.LinkItem? && item.url != "" && exists i: nat :: Seqs.OccursAt(item.url, PageContentAdminPath, i)
  }

  /** Why the admin menu cannot be rewritten: the toolbar has no admin menu, or the menu has no first item. */
  datatype MenuError = NoMenu | NoFirstItem

  /**
   Rewrite the admin menu's first item to the unfiltered changelist URL
   when that item has a URL into the page-content admin; leave every other
   item, and the first one otherwise, as they were. A missing menu, or one
   without items, is an error.
   */
  function ChangeAdminMenu(menu: Option<seq<MenuItem>>, changelistUrl: string): (r: Result<seq<MenuItem>, MenuError>)
    ensures menu.None? ==> r == Err(NoMenu)
    ensures menu == Some([]) ==> r == Err(NoFirstItem)
    ensures menu.Some? && |menu.value| > 0 ==>
      var items := menu.value;
      && r.Ok? && |r.value| == |items| && r.value[1..] == items[1..]
      && (PointsToPageContentAdmin(items[0]) ==> r.value[0] == LinkItem(items[0].title, changelistUrl))
      && (!PointsToPageContentAdmin(items[0]) ==> r.value == items)
  {
    match menu
    case None => Err(NoMenu)
    case Some(items) =>
      if |items| == 0 then Err(NoFirstItem)
      else
        var item := items[0];
        if item.LinkItem? && item.url != "" && Seqs.Contains(item.url, PageContentAdminPath) then
          Seqs.ContainsIff(item.url, PageContentAdminPath);
          Ok([item.(url := changelistUrl)] + items[1..])
        else
          Seqs.ContainsIff(if item.LinkItem? then item.url else "", PageContentAdminPath);
          Ok(items)
  }

  /** Rewriting a rewritten menu again with the same changelist URL changes nothing more. */
  lemma ChangeAdminMenuIdempotent(menu: Option<seq<MenuItem>>, changelistUrl: string)
    ensures var r := ChangeAdminMenu(menu, changelistUrl);
      r.Ok? ==> ChangeAdminMenu(Some(r.value), changelistUrl) == r
  {
    var r := ChangeAdminMenu(menu, changelistUrl);
    if r.Ok? {
      var once := r.value;
      assert once == [once[0]] + menu.value[1..];
      if PointsToPageContentAdmin(once[0]) {
        assert ChangeAdminMenu(Some(once), changelistUrl).value[0] == once[0];
      }
    }
  }
}
