/** `create_ts`: make a group to hold a new time series, mark it as one,
    and create the partition of the current UTC day so that the series'
    table layout is stored in the file. */
module TsFile {
  import opened Calendar
  import opened Results
  import opened Partitions
  import opened Store
  import opened TsTables

  /** The marker attributes of a series root group. */
  const CLASS_ATTR: string := "_TS_TABLES_CLASS"
  const VERSION_ATTR: string := "_TS_TABLES_VERSION"
  const CLASS_VALUE: string := "TIMESERIES"
  const VERSION_VALUE: string := "0.0.1"

  /** Why creating a group fails. */
  datatype FileError = NodeExists | NoSuchParent

  /** The groups on the way from the file's root to `path`, `path` included. */
  function Prefixes(path: seq<string>): (ps: set<seq<string>>)
    ensures forall p :: p in ps <==> |p| <= |path| && p == path[..|p|]
  {
    set i | 0 <= i <= |path| :: path[..i]
  }

  /** Every group's parent is a group, up to the root `[]`. */
  ghost predicate ParentClosed(groups: set<seq<string>>) {
    [] in groups && forall g :: g in groups && g != [] ==> g[..|g| - 1] in groups
  }

  /** In a tree, the ancestors of a group are groups. */
  lemma {:induction false} AncestorsPresent(groups: set<seq<string>>, g: seq<string>)
    requires ParentClosed(groups) && g in groups
    ensures Prefixes(g) <= groups
    decreases |g|
  {
    if g != [] {
      var parent := g[..|g| - 1];
      AncestorsPresent(groups, parent);
      forall p | p in Prefixes(g) ensures p in groups {
        if |p| < |g| {
          assert p == parent[..|p|];
        }
      }
    }
  }

  /** Adding a path with all its ancestors keeps the groups a tree. */
  lemma AddPrefixes(groups: set<seq<string>>, path: seq<string>)
    requires ParentClosed(groups)
    ensures ParentClosed(groups + Prefixes(path))
  {
    forall g | g in Prefixes(path) && g != [] ensures g[..|g| - 1] in Prefixes(path) {
      assert g[..|g| - 1] == path[..|g| - 1];
    }
  }

  /** The part of a PyTables file a series creation touches: its groups,
      as paths from the root, and the attributes set on them. */
  class PtFile {
    var groups: set<seq<string>>
    var attrs: map<seq<string>, map<string, string>>

    ghost predicate Valid()
      reads this
    {
      ParentClosed(groups)
    }

    /** A file holding only its root group. */
    constructor ()
      ensures groups == {[]} && attrs == map[]
      ensures Valid()
    {
      groups := {[]};
      attrs := map[];
    }

    /** The attributes of the node at `path`; none were set when absent. */
    function Attrs(path: seq<string>): map<string, string>
      reads this
    {
      if path in attrs then attrs[path] else map[]
    }

    /** `create_group(where, name, ..., createparents)`: fails when the
        node exists, or when its parent is missing and parents are not to
        be created; otherwise creates the group and any missing ancestor. */
    method CreateGroup(where: seq<string>, name: string, createParents: bool)
      returns (r: Result<seq<string>, FileError>)
      requires Valid()
      modifies this
      ensures Valid() && attrs == old(attrs)
      ensures where + [name] in old(groups) ==> r == Err(NodeExists)
      ensures where + [name] !in old(groups) && where !in old(groups) && !createParents
              ==> r == Err(NoSuchParent)
      ensures r.Err? ==> groups == old(groups)
      ensures r.Ok? <==> where + [name] !in old(groups) && (createParents || where in old(groups))
      ensures r.Ok? ==> r.value == where + [name] && groups == old(groups) + Prefixes(where + [name])
      ensures r.Ok? && !createParents ==> groups == old(groups) + {where + [name]}
    {
      var path := where + [name];
      if path in groups {
        return Err(NodeExists);
      }
      if where !in groups && !createParents {
        return Err(NoSuchParent);
      }
      if !createParents {
        AncestorsPresent(groups, where);
        assert Prefixes(path) == Prefixes(where) + {path} by {
          forall p | p in Prefixes(path) && p != path ensures p in Prefixes(where) {
            assert p == where[..|p|];
          }
        }
      }
      AddPrefixes(groups, path);
      groups := groups + Prefixes(path);
      return Ok(path);
    }

    /** `node._v_attrs.<key> = value` on an existing node. */
    method SetAttr(path: seq<string>, key: string, value: string)
      requires path in groups
      modifies this
      ensures groups == old(groups)
      ensures attrs == old(attrs)[path := old(Attrs(path))[key := value]]
    {
      attrs := attrs[path := Attrs(path)[key := value]];
    }

    /** Mark the group at `path` as the root of a series: its class and
        the format version. */
    method MarkSeries(path: seq<string>)
      requires path in groups
      modifies this
      ensures groups == old(groups)
      ensures attrs == old(attrs)[path := old(Attrs(path))[CLASS_ATTR := CLASS_VALUE][VERSION_ATTR := VERSION_VALUE]]
    {
      SetAttr(path, CLASS_ATTR, CLASS_VALUE);
      SetAttr(path, VERSION_ATTR, VERSION_VALUE);
    }
  }

  /** `create_ts`: create group `name` under `where`, mark it as a series
      root, bind a series object to it with the given table settings and
      create the partition of `today`, the current UTC day.  When the group
      cannot be created nothing changes. */
  method CreateTs<V>(f: PtFile, where: seq<string>, name: string, config: TableConfig,
                     createParents: bool, today: int)
    returns (r: Result<TsTable<V>, FileError>)
    requires f.Valid() && InDatetimeRange(today)
    modifies f
    ensures f.Valid()
    ensures where + [name] in old(f.groups) ==> r == Err(NodeExists)
    ensures r.Ok? <==> where + [name] !in old(f.groups) && (createParents || where in old(f.groups))
    ensures r.Err? ==> f.groups == old(f.groups) && f.attrs == old(f.attrs)
    ensures r.Ok? ==>
              var path := where + [name];
              && f.groups == old(f.groups) + Prefixes(path)
              && f.attrs == old(f.attrs)[path := old(f.Attrs(path))[CLASS_ATTR := CLASS_VALUE][VERSION_ATTR := VERSION_VALUE]]
              && fresh(r.value)
              && r.value.root == path && r.value.config == config
              && r.value.partitions == map[today := []]
              && r.value.maxTs == None
              && r.value.Valid()
  {
    var node := f.CreateGroup(where, name, createParents);
    if node.Err? {
      return Err(node.error);
    }
    var path := node.value;
    f.MarkSeries(path);
    var ts := NewSeries<V>(path, config, today);
    return Ok(ts);
  }

  /** The series object `create_ts` returns: bound to `root`, with the given
      table settings, and holding the one empty partition of `today`. */
  method NewSeries<V>(root: seq<string>, config: TableConfig, today: int) returns (ts: TsTable<V>)
    requires InDatetimeRange(today)
    ensures fresh(ts) && ts.root == root && ts.config == config
    ensures ts.partitions == map[today := []] && ts.maxTs == None && ts.Valid()
  {
    ts := new TsTable<V>(root, config);
    ts.CreatePartition(today);
  }

  /** A fresh series holds exactly the groups of its one partition's path,
      and no rows. */
  lemma NewSeriesShape<V>(parts: Parts<V>, groups: set<seq<string>>, today: int)
    requires InDatetimeRange(today)
    requires parts == map[today := []] && groups == GroupsOf(parts.Keys)
    ensures groups == PathGroups(today)
    ensures PartitionPath(today) in groups
    ensures NoRows(parts) && Rows(parts, today) == []
  {
    assert parts.Keys == {} + {today};
    GroupsOfInsert({}, today);
  }
}
