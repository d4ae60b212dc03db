/**
 * `Path`, an absolute path held as a string starting with `'/'`.
 * `split` cuts it at every `'/'` (as `str::split` does, keeping empty
 * pieces) and folds the pieces into items: empty and `"."` pieces vanish,
 * `".."` drops the previous item (at the root it does nothing), anything
 * else is an item. `canonicalize` rebuilds `"/item/item..."` from the
 * items and keeps a trailing `'/'` (a directory path).
 */
module VfsPath {
  import opened Wrappers

  /** `s.ends_with('/')`. */
  predicate IsDir(s: string)
  {
    |s| > 0 && s[|s| - 1] == '/'
  }

  /** An item `split` keeps: not empty, not `"."` or `".."`, no `'/'`. */
  predicate IsItem(x: string)
  {
    x != "" && x != "." && x != ".." && '/' !in x
  }

  predicate AllItems(items: seq<string>)
  {
    forall i :: 0 <= i < |items| ==> IsItem(items[i])
  }

  /** `s.split('/')`: the pieces between slashes, empty ones included; never an empty list. */
  function Segments(s: string): (r: seq<string>)
    ensures |r| >= 1
    ensures forall k :: 0 <= k < |r| ==> '/' !in r[k]
    decreases |s|
  {
    if |s| == 0 then [""]
    else
      var rest := Segments(s[1..]);
      if s[0] == '/' then [""] + rest
      else [[s[0]] + rest[0]] + rest[1..]
  }

  /** A string without a slash is one piece. */
  lemma {:induction false} SegmentsNoSlash(x: string)
    requires '/' !in x
    ensures Segments(x) == [x]
    decreases |x|
  {
    if |x| > 0 {
      SegmentsNoSlash(x[1..]);
      assert [x[0]] + x[1..] == x;
    }
  }

  /** Splitting at a slash splits the two sides separately. */
  lemma {:induction false} SegmentsConcat(a: string, b: string)
    ensures Segments(a + "/" + b) == Segments(a) + Segments(b)
    decreases |a|
  {
    if |a| == 0 {
      assert a + "/" + b == "/" + b;
      assert ("/" + b)[1..] == b;
    } else {
      assert (a + "/" + b)[1..] == a[1..] + "/" + b;
      SegmentsConcat(a[1..], b);
    }
  }

  /** One step of `split`'s fold. */
  function Step(acc: seq<string>, seg: string): seq<string>
  {
    if seg == "" || seg == "." then acc
    else if seg == ".." then (if acc == [] then acc else acc[..|acc| - 1])
    else acc + [seg]
  }

  /** `split`'s fold over `segs`, starting from `acc`; it only ever keeps items. */
  function Fold(acc: seq<string>, segs: seq<string>): (r: seq<string>)
    ensures AllItems(acc) && (forall k :: 0 <= k < |segs| ==> '/' !in segs[k]) ==> AllItems(r)
    decreases |segs|
  {
    if segs == [] then acc else Fold(Step(acc, segs[0]), segs[1..])
  }

  lemma {:induction false} FoldAppend(acc: seq<string>, a: seq<string>, b: seq<string>)
    ensures Fold(acc, a + b) == Fold(Fold(acc, a), b)
    decreases |a|
  {
    if a == [] {
      assert a + b == b;
    } else {
      assert (a + b)[0] == a[0];
      assert (a + b)[1..] == a[1..] + b;
      FoldAppend(Step(acc, a[0]), a[1..], b);
    }
  }

  /** Folding items that are already clean appends them. */
  lemma {:induction false} FoldItems(acc: seq<string>, items: seq<string>)
    requires AllItems(items)
    ensures Fold(acc, items) == acc + items
    decreases |items|
  {
    if items != [] {
      FoldItems(acc + [items[0]], items[1..]);
      assert acc + [items[0]] + items[1..] == acc + items;
    }
  }

  /** `split`: the items of the path, with `"."`, `".."` and repeated slashes resolved. */
  function Split(s: string): (items: seq<string>)
    ensures AllItems(items)
  {
    Fold([], Segments(s))
  }

  /** `canonicalize`'s fold: `"/" + item` for each item. */
  function Rebuild(items: seq<string>): (r: string)
    ensures items == [] <==> r == ""
    ensures items != [] ==> r[0] == '/'
    ensures items != [] && IsItem(items[|items| - 1]) ==> !IsDir(r)
  {
    if items == [] then "" else Rebuild(items[..|items| - 1]) + "/" + items[|items| - 1]
  }

  /** Rebuilt items split back into `""` and the same items. */
  lemma {:induction false} SegmentsOfRebuild(items: seq<string>)
    requires AllItems(items)
    ensures Segments(Rebuild(items)) == [""] + items
    decreases |items|
  {
    if items != [] {
      var init := items[..|items| - 1];
      var last := items[|items| - 1];
      SegmentsOfRebuild(init);
      SegmentsConcat(Rebuild(init), last);
      SegmentsNoSlash(last);
      assert init + [last] == items;
    }
  }

  /** Splitting a rebuilt path, with or without its trailing slash, gives the items back. */
  lemma SplitRebuild(items: seq<string>)
    requires AllItems(items)
    ensures Split(Rebuild(items)) == items
    ensures Split(Rebuild(items) + "/") == items
  {
    SegmentsOfRebuild(items);
    FoldItems([], items);
    SegmentsConcat(Rebuild(items), "");
    assert Rebuild(items) + "/" == Rebuild(items) + "/" + "";
    FoldAppend([], [""] + items, [""]);
  }

  /**
   * `canonicalize` as written. With no items and no trailing slash the fold
   * leaves the empty string, which is not a path.
   */
  function CanonicalAsWritten(s: string): string
  {
    Rebuild(Split(s)) + (if IsDir(s) then "/" else "")
  }

  /** `Path::new(".")` canonicalises `"/."` to the empty string. */
  lemma CanonicalizeDotIsEmpty()
    ensures CanonicalAsWritten("/.") == ""
    ensures Canonical("/.") == "/"
  {
    assert Segments("/.") == ["", "."] by {
      assert "/."[1..] == ".";
      SegmentsNoSlash(".");
    }
    assert Split("/.") == [];
  }

  /**
   * `canonicalize` as the type promises it: a path that resolves to no items
   * is the root `"/"`. The result starts with `'/'`, has the input's items,
   * and is a directory path exactly when the input was one or it is the
   * root.
   */
  function Canonical(s: string): (r: string)
    ensures |r| >= 1 && r[0] == '/'
    ensures Split(r) == Split(s)
    ensures IsDir(r) <==> IsDir(s) || Split(s) == []
  {
    var items := Split(s);
    var j := Rebuild(items);
    SplitRebuild(items);
    if j == "" then
      assert Split("/") == [] by {
        SegmentsConcat("", "");
        assert "" + "/" + "" == "/";
      }
      "/"
    else if IsDir(s) then j + "/"
    else j
  }

  /** Canonicalising twice is canonicalising once. */
  lemma CanonicalIdempotent(s: string)
    ensures Canonical(Canonical(s)) == Canonical(s)
  {
  }

  /** Away from paths with no items the two versions agree. */
  lemma CanonicalAgrees(s: string)
    requires Split(s) != []
    ensures CanonicalAsWritten(s) == Canonical(s)
  {
  }

  /** `s.rfind('/')` for a string that has one. */
  function LastSlash(t: string): (i: nat)
    requires '/' in t
    ensures i < |t| && t[i] == '/'
    ensures forall j :: i < j < |t| ==> t[j] != '/'
    decreases |t|
  {
    if t[|t| - 1] == '/' then |t| - 1 else LastSlash(t[..|t| - 1])
  }

  /**
   * `last`: the final item, with its trailing `'/'` for a directory path;
   * `None` at the root. The path itself is left as it was.
   */
  function Last(s: string): (r: Option<string>)
    requires |s| >= 1 && s[0] == '/'
    ensures r.None? <==> |s| == 1
    ensures r.Some? ==> |r.value| >= 1 && |r.value| < |s| && s[|s| - |r.value|..] == r.value
    ensures r.Some? ==> forall k :: 0 <= k < |r.value| - 1 ==> r.value[k] != '/'
    ensures r.Some? ==> s[|s| - |r.value| - 1] == '/'
  {
    if |s| == 1 then None
    else
      var t := if IsDir(s) then s[..|s| - 1] else s;
      assert t[0] == '/';
      var pos := LastSlash(t) + 1;
      Some(s[pos..])
  }

  class Path {
    var inner: string

    /** The path is absolute. */
    predicate Valid()
      reads this
    {
      |inner| >= 1 && inner[0] == '/'
    }

    /** `new`: prefix `'/'` when missing, then canonicalise; the items are those of the input. */
    constructor (path: string)
      ensures Valid()
      ensures inner == Canonical(if |path| > 0 && path[0] == '/' then path else "/" + path)
      ensures Split(inner) == Split(path) && Canonical(inner) == inner
    {
      var prefixed := if |path| > 0 && path[0] == '/' then path else "/" + path;
      if !(|path| > 0 && path[0] == '/') {
        SegmentsConcat("", path);
        assert "" + "/" + path == prefixed;
      }
      inner := Canonical(prefixed);
      CanonicalIdempotent(prefixed);
    }

    /** `From<String>`: canonicalise the string as it is. */
    constructor FromString(value: string)
      ensures Valid() && inner == Canonical(value) && Split(inner) == Split(value)
    {
      inner := Canonical(value);
    }

    /** `rela`: the path without its leading `'/'`; `""` for the root. */
    function Rela(): (r: string)
      requires Valid()
      reads this
      ensures "/" + r == inner
    {
      if |inner| == 1 then "" else inner[1..]
    }

    /** `is_root`: a path of length 1, which for an absolute path is `"/"`. */
    predicate IsRoot()
      requires Valid()
      reads this
      ensures IsRoot() <==> inner == "/"
    {
      |inner| == 1
    }

    /** `canonicalize`, in place. */
    method Canonicalize()
      modifies this
      ensures inner == Canonical(old(inner)) && Valid()
      ensures Split(inner) == Split(old(inner))
    {
      inner := Canonical(inner);
    }

    /**
     * `pop`: remove and return the last item (with its `'/'` for a directory
     * path). What is left is the parent directory, ending in `'/'`, so the
     * old path is the new one followed by the item. At the root: `None`.
     */
    method Pop() returns (item: Option<string>)
      requires Valid()
      modifies this
      ensures item == Last(old(inner))
      ensures item.None? ==> inner == old(inner) == "/"
      ensures item.Some? ==> old(inner) == inner + item.value && Valid() && IsDir(inner)
    {
      if |inner| == 1 {
        return None;
      }
      var isDir := IsDir(inner);
      var t := if isDir then inner[..|inner| - 1] else inner;
      assert t[0] == '/';
      var pos := LastSlash(t) + 1;
      var it := t[pos..];
      inner := t[..pos];
      if isDir {
        it := it + "/";
      }
      item := Some(it);
      assert old(inner) == inner + it;
    }

    /**
     * `join`: append `item` as a directory. The items become the old ones
     * with `item`'s pieces folded on (so `".."` in it climbs), and the path
     * is a directory path.
     */
    method Join(item: string)
      requires Valid()
      modifies this
      ensures inner == Canonical((if IsDir(old(inner)) then old(inner) else old(inner) + "/") + item + "/")
      ensures Split(inner) == Fold(Split(old(inner)), Segments(item))
      ensures Valid() && IsDir(inner)
    {
      var base := if IsDir(inner) then inner else inner + "/";
      var whole := base + item + "/";
      var front := base[..|base| - 1];
      assert front + "/" == base;
      assert Split(base) == Fold([], Segments(front)) by {
        SegmentsConcat(front, "");
        FoldAppend([], Segments(front), [""]);
        assert front + "/" + "" == base;
      }
      assert Split(whole) == Fold(Split(base), Segments(item)) by {
        assert whole == front + "/" + (item + "/" + "");
        SegmentsConcat(front, item + "/" + "");
        SegmentsConcat(item, "");
        FoldAppend([], Segments(front), Segments(item) + [""]);
        FoldAppend(Fold([], Segments(front)), Segments(item), [""]);
      }
      if !IsDir(inner) {
        assert front == inner;
        SegmentsConcat(inner, "");
        FoldAppend([], Segments(inner), [""]);
        assert inner + "/" + "" == base;
      }
      inner := Canonical(whole);
    }

    /**
     * `extend`: append a relative path to a directory path. On any other
     * path the assertion fails (`ok` false, the kernel panics and nothing
     * changes). The items become the old ones with `path`'s pieces folded on.
     */
    method Extend(path: string) returns (ok: bool)
      requires Valid()
      modifies this
      ensures ok <==> IsDir(old(inner))
      ensures !ok ==> inner == old(inner)
      ensures ok ==> inner == Canonical(old(inner) + path)
      ensures ok ==> Split(inner) == Fold(Split(old(inner)), Segments(path))
      ensures Valid()
    {
      if !IsDir(inner) {
        return false;
      }
      ok := true;
      var front := inner[..|inner| - 1];
      assert front + "/" == inner;
      assert Split(inner) == Fold([], Segments(front)) by {
        SegmentsConcat(front, "");
        FoldAppend([], Segments(front), [""]);
        assert front + "/" + "" == inner;
      }
      assert Split(inner + path) == Fold(Split(inner), Segments(path)) by {
        assert inner + path == front + "/" + path;
        SegmentsConcat(front, path);
        FoldAppend([], Segments(front), Segments(path));
      }
      inner := Canonical(inner + path);
    }
  }
}
