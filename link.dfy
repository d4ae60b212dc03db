/**
 * Hard links: a map from a link's (user) path to the target path it names,
 * and a map from a target path to its link count. A target path absent from
 * the count map has one link, its own name. Paths are their strings.
 */
module Links {
  import opened Wrappers

  type PathName = string

  class LinkTable {
    var pathMap: map<PathName, PathName>
    var countMap: map<PathName, nat>

    /** Every stored count is at least one, so `*count -= 1` never underflows. */
    predicate Valid()
      reads this
    {
      forall p :: p in countMap ==> countMap[p] >= 1
    }

    constructor ()
      ensures pathMap == map[] && countMap == map[] && Valid()
    {
      pathMap := map[];
      countMap := map[];
    }

    /** `get_path`: the target path `path` links to, or `path` itself when it is no link. */
    function GetPath(path: PathName): (r: PathName)
      reads this
      ensures path in pathMap ==> r == pathMap[path]
      ensures path !in pathMap ==> r == path
    {
      if path in pathMap then pathMap[path] else path
    }

    /** `get_nlink`: the stored count, 1 for a target path never linked to. */
    function GetNlink(path: PathName): (r: nat)
      reads this
      ensures path in countMap ==> r == countMap[path]
      ensures path !in countMap ==> r == 1
    {
      if path in countMap then countMap[path] else 1
    }

    /** `add_link`: the target path gains a link (its count starts from 1) and `user` now names it. */
    method AddLink(target: PathName, user: PathName)
      requires Valid()
      modifies this
      ensures Valid()
      ensures countMap == old(countMap)[target := old(GetNlink(target)) + 1]
      ensures pathMap == old(pathMap)[user := target]
      ensures GetNlink(target) == old(GetNlink(target)) + 1 && GetPath(user) == target
    {
      var count := if target in countMap then countMap[target] else 1;
      countMap := countMap[target := count + 1];
      pathMap := pathMap[user := target];
    }

    /**
     * `remove_link`: a link path stops naming its target path, and that target
     * path loses a link; a target path with a stored count loses a link. The
     * target path is returned, to be deleted, when its count reaches 0, and
     * a target path never linked to is returned at once. Removing a link
     * whose target path has no count would fail the `unwrap`.
     */
    method RemoveLink(path: PathName) returns (r: Option<PathName>)
      requires Valid() && (path in pathMap ==> pathMap[path] in countMap)
      modifies this
      ensures Valid()
      ensures pathMap == old(pathMap) - {path}
      ensures var target := old(GetPath(path));
        target in old(countMap) ==>
          (r == Some(target) <==> old(countMap)[target] == 1) &&
          (r.None? <==> old(countMap)[target] > 1) &&
          (countMap == if old(countMap)[target] == 1 then old(countMap) - {target}
                       else old(countMap)[target := old(countMap)[target] - 1])
      ensures path !in old(pathMap) && path !in old(countMap) ==> r == Some(path) && countMap == old(countMap)
      ensures r.Some? ==> r.value == old(GetPath(path))
    {
      if path in pathMap {
        var target := pathMap[path];
        pathMap := pathMap - {path};
        var count := countMap[target] - 1;
        if count == 0 {
          countMap := countMap - {target};
          return Some(target);
        }
        countMap := countMap[target := count];
        return None;
      }
      if path in countMap {
        var count := countMap[path] - 1;
        if count == 0 {
          countMap := countMap - {path};
          return Some(path);
        }
        countMap := countMap[path := count];
        return None;
      }
      r := Some(path);
    }
  }

  /**
   * Linking a fresh name to a target path and then removing that name deletes
   * nothing, and leaves the target path with the link count it had and the
   * name resolving to itself again.
   */
  method LinkThenUnlink(t: LinkTable, target: PathName, user: PathName) returns (r: Option<PathName>)
    requires t.Valid() && user !in t.pathMap && user != target
    modifies t
    ensures r.None?
    ensures t.GetNlink(target) == old(t.GetNlink(target)) && t.GetPath(user) == user
    ensures t.pathMap == old(t.pathMap)
  {
    t.AddLink(target, user);
    r := t.RemoveLink(user);
  }
}
