/** Arena indices and spines: a linked list whose nodes live in a sequence is described by
    the list of node indices in list order (its spine). */
module Arena {
  import opened Common

  /** The first element of a sequence, if any. */
  function First(s: seq<nat>): Option<nat>
  {
    if s == [] then None else Some(s[0])
  }

  /** The successor of position `k` in a spine: the link its node must hold. */
  function Link(s: seq<nat>, k: nat): Option<nat>
  {
    if k + 1 < |s| then Some(s[k + 1]) else None
  }

  /** The values a sequence holds. */
  function Elems(s: seq<nat>): set<nat>
  {
    set x | x in s
  }

  ghost predicate Distinct(s: seq<nat>)
  {
    forall i, j :: 0 <= i < j < |s| ==> s[i] != s[j]
  }

  /** `s` without position `m`. */
  function Without(s: seq<nat>, m: nat): (t: seq<nat>)
    requires m < |s|
    ensures |t| == |s| - 1
    ensures forall k :: 0 <= k < |t| ==> t[k] == if k < m then s[k] else s[k + 1]
  {
    s[..m] + s[m + 1..]
  }

  /** The last element of a sequence, if any. */
  function Last(s: seq<nat>): Option<nat>
  {
    if s == [] then None else Some(s[|s| - 1])
  }

  /** The predecessor of position `k` in a spine: the back link its node must hold. */
  function Before(s: seq<nat>, k: nat): Option<nat>
    requires k <= |s|
  {
    if k == 0 then None else Some(s[k - 1])
  }

  /** Removing one position from a sequence of distinct indices leaves distinct indices, none
      of them the removed one. */
  lemma DistinctRemove(s: seq<nat>, m: nat)
    requires Distinct(s) && m < |s|
    ensures Distinct(Without(s, m))
    ensures s[m] !in Without(s, m)
  {
    var t := Without(s, m);
    forall i, j | 0 <= i < j < |t|
      ensures t[i] != t[j]
    {
      var i' := if i < m then i else i + 1;
      var j' := if j < m then j else j + 1;
      assert t[i] == s[i'] && t[j] == s[j'];
    }
    forall i | 0 <= i < |t|
      ensures t[i] != s[m]
    {
      var i' := if i < m then i else i + 1;
      assert t[i] == s[i'];
    }
  }

  /** Putting a new index in front of distinct indices keeps them distinct. */
  lemma DistinctCons(n: nat, s: seq<nat>)
    requires Distinct(s) && n !in s
    ensures Distinct([n] + s)
  {
    var t := [n] + s;
    forall i, j | 0 <= i < j < |t|
      ensures t[i] != t[j]
    {
      if i > 0 {
        assert t[i] == s[i - 1] && t[j] == s[j - 1];
      }
    }
  }
}
