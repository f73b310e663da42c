/** The Ansible export: one unused host name per device, and groups by device type. */
module AnsibleNames {
  import opened Wrappers
  import opened Text

  /** The trimmed texts of one device. */
  datatype Row = Row(hostname: string, name: string, id: string, deviceType: string)

  /** The text normalization of the export; what it does with single characters does not matter here. */
  type Slug = string -> string

  function Or(text: string, other: string): string {
    if text != "" then text else other
  }

  function NameOf(row: Row): string {
    Or(row.hostname, Or(row.name, row.id))
  }

  function Clip(text: string): string {
    if |text| <= 8 then text else text[..8]
  }

  function BaseOf(row: Row, slug: Slug): string {
    Or(slug(NameOf(row)), "device")
  }

  function SuffixOf(row: Row, slug: Slug): string {
    Or(Clip(slug(row.id)), "device")
  }

  function GroupOf(row: Row, slug: Slug): string {
    "device_type_" + Or(slug(row.deviceType), "other")
  }

  /** The names to try: the base, the base with the suffix, then numbered from 2. */
  function Candidate(base: string, suffix: string, k: nat): string {
    if k == 0 then base
    else if k == 1 then base + "_" + suffix
    else base + "_" + suffix + "_" + ToText(k, 10)
  }

  lemma CandidatesDiffer(base: string, suffix: string, i: nat, k: nat)
    requires 1 <= i < k
    ensures Candidate(base, suffix, i) != Candidate(base, suffix, k)
  {
    var stem := base + "_" + suffix + "_";
    if i == 1 {
      assert |Candidate(base, suffix, k)| > |Candidate(base, suffix, i)|;
    } else if Candidate(base, suffix, i) == Candidate(base, suffix, k) {
      assert Candidate(base, suffix, i)[|stem|..] == ToText(i, 10) &&
        Candidate(base, suffix, k)[|stem|..] == ToText(k, 10);
      ValueOfText(i, 10);
      ValueOfText(k, 10);
    }
  }

  /** The first candidate that is not used. */
  ghost predicate IsFirstFree(host: string, base: string, suffix: string, used: set<string>) {
    exists k: nat :: host == Candidate(base, suffix, k) && host !in used && forall i: nat :: i < k ==>
      Candidate(base, suffix, i) in used
  }

  /** The tries so far: candidates 0 to k-1 are used, and `tried` holds those from 1 on. */
  ghost predicate Tried(tried: set<string>, base: string, suffix: string, k: nat, used: set<string>) {
    && tried <= used
    && (forall t :: t in tried ==> exists i: nat :: 1 <= i < k && t == Candidate(base, suffix, i))
    && (forall i: nat :: i < k ==> Candidate(base, suffix, i) in used)
  }

  lemma NextTry(tried: set<string>, base: string, suffix: string, k: nat, used: set<string>)
    requires k >= 1 && Tried(tried, base, suffix, k, used) && Candidate(base, suffix, k) in used
    ensures Candidate(base, suffix, k) !in tried
    ensures Tried(tried + {Candidate(base, suffix, k)}, base, suffix, k + 1, used)
  {
    hide Candidate;
    forall t | t in tried
      ensures t != Candidate(base, suffix, k)
    {
      var i: nat :| 1 <= i < k && t == Candidate(base, suffix, i);
      CandidatesDiffer(base, suffix, i, k);
    }
  }

  lemma FirstFree(tried: set<string>, base: string, suffix: string, k: nat, used: set<string>)
    requires Tried(tried, base, suffix, k, used) && Candidate(base, suffix, k) !in used
    ensures IsFirstFree(Candidate(base, suffix, k), base, suffix, used)
  {
  }

  /** The naming loop ends for every input: each try that fails uses up another used name. */
  method Allocate(row: Row, slug: Slug, used: set<string>) returns (host: string)
    ensures IsFirstFree(host, BaseOf(row, slug), SuffixOf(row, slug), used)
  {
    hide Tried, IsFirstFree, BaseOf, SuffixOf;
    var base, suffix := BaseOf(row, slug), SuffixOf(row, slug);
    host := base;
    StartTrying(base, suffix, used);
    if host !in used {
      FirstFree({}, base, suffix, 0, used);
      return;
    }
    host := base + "_" + suffix;
    var duplicate := 2;
    ghost var tried: set<string> := {};
    while host in used
      invariant duplicate >= 2 && host == Candidate(base, suffix, duplicate - 1)
      invariant Tried(tried, base, suffix, duplicate - 1, used)
      decreases used - tried
    {
      NextTry(tried, base, suffix, duplicate - 1, used);
      tried := tried + {host};
      host := base + "_" + suffix + "_" + ToText(duplicate, 10);
      duplicate := duplicate + 1;
    }
    FirstFree(tried, base, suffix, duplicate - 1, used);
  }

  lemma StartTrying(base: string, suffix: string, used: set<string>)
    ensures Tried({}, base, suffix, 0, used)
    ensures base in used ==> Tried({}, base, suffix, 1, used)
    ensures Candidate(base, suffix, 0) == base
  {
  }

  predicate NoDuplicates(hosts: seq<string>) {
    forall i, j :: 0 <= i < j < |hosts| ==> hosts[i] != hosts[j]
  }

  /** Every host is listed once in the group of its device, and the groups list nothing else. */
  predicate Partitions(groups: map<string, seq<string>>, hostvars: map<string, Row>, slug: Slug) {
    && (forall host :: host in hostvars ==>
      GroupOf(hostvars[host], slug) in groups && host in groups[GroupOf(hostvars[host], slug)])
    && (forall g :: g in groups ==> NoDuplicates(groups[g]) && groups[g] != [])
    && (forall g, host :: g in groups && host in groups[g] ==> host in hostvars && GroupOf(hostvars[host], slug) == g)
  }

  /** Row i got names[i], if it has a name at all; different rows got different names. */
  predicate Named(names: seq<Option<string>>, rows: seq<Row>, hostvars: map<string, Row>)
    requires |names| <= |rows|
  {
    && (forall i :: 0 <= i < |names| ==> (names[i].Some? <==> NameOf(rows[i]) != ""))
    && (forall i :: 0 <= i < |names| && names[i].Some? ==>
      names[i].value in hostvars && hostvars[names[i].value] == rows[i])
    && (forall i, j :: 0 <= i < j < |names| && names[i].Some? ==> names[i] != names[j])
    && (forall host :: host in hostvars ==> Some(host) in names)
  }

  function Used(names: seq<Option<string>>): set<string> {
    if |names| == 0 then {}
    else
      var last := names[|names| - 1];
      Used(names[..|names| - 1]) + if last.Some? then {last.value} else {}
  }

  /** Each host name is the first candidate of its row that no earlier row took. */
  ghost predicate AllFirstFree(names: seq<Option<string>>, rows: seq<Row>, slug: Slug)
    requires |names| <= |rows|
  {
    forall i :: 0 <= i < |names| && names[i].Some? ==>
      IsFirstFree(names[i].value, BaseOf(rows[i], slug), SuffixOf(rows[i], slug), Used(names[..i]))
  }

  lemma OneMoreName(names: seq<Option<string>>, rows: seq<Row>, slug: Slug, name: Option<string>)
    requires |names| < |rows| && AllFirstFree(names, rows, slug)
    requires name.Some? ==>
      IsFirstFree(name.value, BaseOf(rows[|names|], slug), SuffixOf(rows[|names|], slug), Used(names))
    ensures AllFirstFree(names + [name], rows, slug)
    ensures Used(names + [name]) == Used(names) + if name.Some? then {name.value} else {}
  {
    hide IsFirstFree, BaseOf, SuffixOf;
    var more := names + [name];
    assert more[..|names|] == names;
    forall i | 0 <= i < |more| && more[i].Some?
      ensures IsFirstFree(more[i].value, BaseOf(rows[i], slug), SuffixOf(rows[i], slug), Used(more[..i]))
    {
      if i < |names| {
        assert more[..i] == names[..i];
      }
    }
  }

  method AnsibleInventory(rows: seq<Row>, slug: Slug)
    returns (hostvars: map<string, Row>, groups: map<string, seq<string>>, names: seq<Option<string>>)
    ensures |names| == |rows| && Named(names, rows, hostvars) && AllFirstFree(names, rows, slug)
    ensures Partitions(groups, hostvars, slug)
    ensures "all" !in groups && "_meta" !in groups
  {
    hide Partitions, Named, AllFirstFree, IsFirstFree, BaseOf, SuffixOf, Used;
    hostvars, groups, names := map[], map[], [];
    var usedHosts: set<string> := {};
    NothingYet(rows, slug);
    for i := 0 to |rows|
      invariant |names| == i && usedHosts == hostvars.Keys == Used(names)
      invariant AllFirstFree(names, rows, slug)
      invariant Named(names, rows, hostvars)
      invariant Partitions(groups, hostvars, slug)
    {
      var row := rows[i];
      if NameOf(row) == "" {
        NameNone(names, rows, hostvars);
        OneMoreName(names, rows, slug, None);
        names := names + [None];
        continue;
      }
      var host := Allocate(row, slug, usedHosts);
      FreeIsNew(host, BaseOf(row, slug), SuffixOf(row, slug), usedHosts);
      OneMoreName(names, rows, slug, Some(host));
      usedHosts := usedHosts + {host};
      var group := GroupOf(row, slug);
      var members := if group in groups then groups[group] else [];
      AddHost(groups, hostvars, slug, row, host);
      NameSome(names, rows, hostvars, host);
      groups := groups[group := members + [host]];
      hostvars := hostvars[host := row];
      names := names + [Some(host)];
    }
    GroupNames(groups, hostvars, slug);
  }

  lemma NothingYet(rows: seq<Row>, slug: Slug)
    ensures Named([], rows, map[]) && Partitions(map[], map[], slug) && AllFirstFree([], rows, slug) && Used([]) == {}
  {
  }

  lemma FreeIsNew(host: string, base: string, suffix: string, used: set<string>)
    requires IsFirstFree(host, base, suffix, used)
    ensures host !in used
  {
  }

  lemma NameNone(names: seq<Option<string>>, rows: seq<Row>, hostvars: map<string, Row>)
    requires |names| < |rows| && Named(names, rows, hostvars) && NameOf(rows[|names|]) == ""
    ensures Named(names + [None], rows, hostvars)
  {
    hide NameOf;
  }

  lemma NameSome(names: seq<Option<string>>, rows: seq<Row>, hostvars: map<string, Row>, host: string)
    requires |names| < |rows| && Named(names, rows, hostvars) && NameOf(rows[|names|]) != "" && host !in hostvars
    ensures Named(names + [Some(host)], rows, hostvars[host := rows[|names|]])
  {
    hide NameOf;
    var more := names + [Some(host)];
    assert more[|names|] == Some(host);
    forall h | h in hostvars
      ensures Some(h) in more
    {
      var i :| 0 <= i < |names| && names[i] == Some(h);
      assert more[i] == Some(h);
    }
  }

  lemma AddHost(groups: map<string, seq<string>>, hostvars: map<string, Row>, slug: Slug, row: Row, host: string)
    requires Partitions(groups, hostvars, slug) && host !in hostvars
    ensures var group := GroupOf(row, slug);
      var members := if group in groups then groups[group] else [];
      Partitions(groups[group := members + [host]], hostvars[host := row], slug)
  {
    hide GroupOf;
    var group := GroupOf(row, slug);
    var members := if group in groups then groups[group] else [];
    assert forall h :: h in members ==> h in hostvars;
    assert forall h :: h in members + [host] <==> h in members || h == host;
  }

  /** The group keys do not clash with the two fixed keys of the inventory. */
  lemma GroupNames(groups: map<string, seq<string>>, hostvars: map<string, Row>, slug: Slug)
    requires Partitions(groups, hostvars, slug)
    ensures "all" !in groups && "_meta" !in groups
  {
    forall g | g in groups
      ensures |g| >= 12
    {
      assert groups[g][0] in groups[g];
      GroupLength(hostvars[groups[g][0]], slug);
    }
  }

  lemma GroupLength(row: Row, slug: Slug)
    ensures |GroupOf(row, slug)| >= 12
  {
  }

  // ---- which names and groups there are

  /** The text that a device is named after: its host name, else its name, else its id. */
  ghost predicate IsNameOf(text: string, row: Row) {
    && (row.hostname != "" ==> text == row.hostname)
    && (row.hostname == "" && row.name != "" ==> text == row.name)
    && (row.hostname == "" && row.name == "" ==> text == row.id)
  }

  /** The normalized text, or the given one where nothing is left of it. */
  ghost predicate IsSlugged(result: string, text: string, empty: string, slug: Slug) {
    result == if slug(text) == "" then empty else slug(text)
  }

  ghost function Numbered(stem: string, n: nat): string {
    stem + "_" + ToText(n, 10)
  }

  /** The first free one of stem_2, stem_3 and so on. */
  ghost predicate IsFirstNumbered(host: string, stem: string, used: set<string>) {
    exists n: nat ::
      n >= 2 && host == Numbered(stem, n) && host !in used && forall m: nat :: 2 <= m < n ==> Numbered(stem, m) in used
  }

  /**
   * A host is called after its device; if that name is used, up to eight characters of the normalized id follow it
   * after an underscore, and if that is used, too, a number from 2 on.
   */
  lemma HostNamesAre(row: Row, slug: Slug, used: set<string>, host: string, text: string, base: string, id: string)
    requires IsFirstFree(host, BaseOf(row, slug), SuffixOf(row, slug), used)
    requires IsNameOf(text, row) && IsSlugged(base, text, "device", slug) && IsSlugged(id, row.id, "device", slug)
    ensures var suffix := if |id| <= 8 then id else id[..8];
      || (base !in used && host == base)
      || (base in used && base + "_" + suffix !in used && host == base + "_" + suffix)
      || (base in used && base + "_" + suffix in used && IsFirstNumbered(host, base + "_" + suffix, used))
  {
    hide ToText;
    var b, s := BaseOf(row, slug), SuffixOf(row, slug);
    var k: nat :| host == Candidate(b, s, k) && host !in used && forall i: nat :: i < k ==> Candidate(b, s, i) in used;
    if k >= 1 {
      assert Candidate(b, s, 0) in used;
    }
    if k >= 2 {
      assert Candidate(b, s, 1) in used;
      assert host == Numbered(b + "_" + s, k);
      forall m: nat | 2 <= m < k
        ensures Numbered(b + "_" + s, m) in used
      {
        assert Candidate(b, s, m) in used;
      }
      assert IsFirstNumbered(host, b + "_" + s, used);
    }
  }

  lemma GroupsAre(row: Row, slug: Slug, deviceType: string)
    requires IsSlugged(deviceType, row.deviceType, "other", slug)
    ensures GroupOf(row, slug) == "device_type_" + deviceType
  {
  }
}
