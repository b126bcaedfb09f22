/** gen_path_last_component: the last component of a path, with the slashes that trail it. */
module PathComponent {
  import opened Wrappers

  /** One component, then slashes only: e is where the component ends. */
  ghost predicate ComponentAt(s: string, start: nat, e: nat) {
    && start < e <= |s|
    && (start > 0 ==> s[start - 1] == '/')
    && (forall i :: start <= i < e ==> s[i] != '/')
    && (forall i :: e <= i < |s| ==> s[i] == '/')
  }

  /** The suffix that starts the last component; all of a path of slashes is passed over. */
  ghost predicate IsLastComponent(s: string, start: nat) {
    if forall i :: 0 <= i < |s| ==> s[i] == '/' then start == |s|
    else exists e :: ComponentAt(s, start, e)
  }

  /** A path has one last component. */
  lemma LastComponentUnique(s: string, x: nat, y: nat)
    requires IsLastComponent(s, x) && IsLastComponent(s, y)
    ensures x == y
  {
    if exists i :: 0 <= i < |s| && s[i] != '/' {
      var e :| ComponentAt(s, x, e);
      var f :| ComponentAt(s, y, f);
      assert s[e - 1] != '/' && s[f - 1] != '/';
      assert e == f;
    }
  }

  /** Behind a slash, a name and any slashes after it are the last component. */
  lemma NameIsLast(dir: string, name: string, slashes: string)
    requires name != "" && '/' !in name && forall i :: 0 <= i < |slashes| ==> slashes[i] == '/'
    ensures IsLastComponent(dir + "/" + name + slashes, |dir| + 1)
    ensures IsLastComponent(name + slashes, 0)
  {
    var s := dir + "/" + name + slashes;
    assert s[|dir|] == '/' && s[|dir| + 1] == name[0];
    assert ComponentAt(s, |dir| + 1, |dir| + 1 + |name|);
    assert (name + slashes)[0] == name[0];
    assert ComponentAt(name + slashes, 0, |name|);
  }

  /** A path of slashes has the empty one. */
  lemma SlashesHaveNone(slashes: string)
    requires forall i :: 0 <= i < |slashes| ==> slashes[i] == '/'
    ensures IsLastComponent(slashes, |slashes|)
  {
  }

  method LastComponent(filepath: string) returns (r: Option<string>)
    ensures filepath == "" <==> r == None
    ensures r.Some? ==> |r.value| <= |filepath| && r.value == filepath[|filepath| - |r.value|..]
    ensures r.Some? ==> IsLastComponent(filepath, |filepath| - |r.value|)
  {
    if |filepath| == 0 {
      return None;
    }
    var base := 0;
    while base < |filepath| && filepath[base] == '/'
      invariant base <= |filepath| && forall i :: 0 <= i < base ==> filepath[i] == '/'
    {
      base := base + 1;
    }
    var p := base;
    var next_slash := false;
    ghost var e, lead := base, base;
    while p < |filepath|
      invariant base <= e <= p <= |filepath| && (base == lead || base < |filepath|)
      invariant base < |filepath| ==> filepath[base] != '/'
      invariant base > 0 ==> filepath[base - 1] == '/'
      invariant forall i :: base <= i < e ==> filepath[i] != '/'
      invariant forall i :: e <= i < p ==> filepath[i] == '/'
      invariant next_slash == (e < p)
    {
      if filepath[p] == '/' {
        next_slash := true;
      } else {
        if next_slash {
          base := p;
          next_slash := false;
        }
        e := p + 1;
      }
      p := p + 1;
    }
    if base < |filepath| {
      assert ComponentAt(filepath, base, e);
      assert filepath[base] != '/';
    }
    r := Some(filepath[base..]);
  }
}
