/** The walk up the supertypes of the generated ontology tables, with its guard against cycles. */
module SupertypeChain {
  import opened Options
  import opened Text

  // The two columns the walk reads. A spec is identified by its row, as the cycle guard does.
  datatype Spec = Spec(name: string, supertype: string)

  // The first row with the name.
  function FindSpec(table: seq<Spec>, name: string): (r: Option<nat>)
    ensures r.Some? ==> r.value < |table| && table[r.value].name == name
    ensures forall j | 0 <= j < (if r.Some? then r.value else |table|) :: table[j].name != name
  {
    if table == [] then None
    else if table[0].name == name then Some(0)
    else
      var rest := FindSpec(table[1..], name);
      if rest.Some? then Some(rest.value + 1) else None
  }

  predicate IsIdentifierChar(c: char) {
    '0' <= c <= '9' || 'a' <= c <= 'z' || 'A' <= c <= 'Z' || c == '_' || c == ':'
  }

  function IdentifierPrefix(s: string): (r: string)
    ensures r <= s && (|r| < |s| ==> !IsIdentifierChar(s[|r|]))
    ensures forall i | 0 <= i < |r| :: IsIdentifierChar(r[i])
  {
    if s != "" && IsIdentifierChar(s[0]) then [s[0]] + IdentifierPrefix(s[1..]) else ""
  }

  // A supertype may be an intersection or a union; its first identifier is the canonical parent.
  function FirstIdentifier(s: string): string { IdentifierPrefix(Trim(s)) }

  function Parent(table: seq<Spec>, i: nat): (r: Option<nat>)
    requires i < |table|
    ensures r.Some? ==> r.value < |table|
  {
    var name := FirstIdentifier(table[i].supertype);
    if name == "" then None else FindSpec(table, name)
  }

  // Distinct rows, from the named one upwards, each the parent of the one before.
  ghost predicate IsWalk(table: seq<Spec>, name: string, chain: seq<nat>) {
    && (forall k | 0 <= k < |chain| :: chain[k] < |table|)
    && (forall j, k | 0 <= j < k < |chain| :: chain[j] != chain[k])
    && (chain != [] ==> FindSpec(table, name) == Some(chain[0]))
    && (forall k | 0 < k < |chain| :: Parent(table, chain[k - 1]) == Some(chain[k]))
  }

  // Where the walk goes next.
  ghost function Next(table: seq<Spec>, name: string, chain: seq<nat>): Option<nat>
    requires IsWalk(table, name, chain)
  {
    if chain == [] then FindSpec(table, name) else Parent(table, chain[|chain| - 1])
  }

  // A walk that went on as long as there was a parent not yet in it.
  ghost predicate IsChain(table: seq<Spec>, name: string, chain: seq<nat>) {
    && IsWalk(table, name, chain)
    && var next := Next(table, name, chain);
       next.None? || next.value in chain
  }

  ghost function Rows(n: nat): (rows: set<nat>)
    ensures |rows| == n && forall i: nat :: i in rows <==> i < n
  {
    if n == 0 then {} else Rows(n - 1) + {n - 1}
  }

  ghost function Used(chain: seq<nat>): (rows: set<nat>)
    requires forall j, k | 0 <= j < k < |chain| :: chain[j] != chain[k]
    ensures |rows| == |chain| && forall i :: i in rows <==> i in chain
  {
    if chain == [] then {} else Used(chain[1..]) + {chain[0]}
  }

  // A walk is no longer than the table.
  lemma WalkFits(table: seq<Spec>, name: string, chain: seq<nat>)
    requires IsWalk(table, name, chain)
    ensures |chain| <= |table|
  {
    var used, rows := Used(chain), Rows(|table|);
    assert used <= rows;
    assert rows == used + (rows - used);
  }

  lemma WalkGrows(table: seq<Spec>, name: string, chain: seq<nat>)
    requires IsWalk(table, name, chain) && Next(table, name, chain).Some?
    requires Next(table, name, chain).value !in chain
    ensures IsWalk(table, name, chain + [Next(table, name, chain).value])
  {
    var next := Next(table, name, chain).value;
    var longer := chain + [next];
    assert next < |table| && longer[0] == if chain == [] then next else chain[0];
    forall k | 0 < k < |longer| ensures Parent(table, longer[k - 1]) == Some(longer[k]) {
      if k < |chain| {
        assert Parent(table, chain[k - 1]) == Some(chain[k]);
      }
    }
  }

  method Chain(table: seq<Spec>, name: string) returns (out: seq<nat>)
    ensures IsChain(table, name, out)
  {
    out := [];
    var cursor := FindSpec(table, name);
    while cursor.Some?
      invariant IsWalk(table, name, out) && cursor == Next(table, name, out)
      decreases |table| - |out|
    {
      if cursor.value in out {
        break;
      }
      WalkGrows(table, name, out);
      out := out + [cursor.value];
      WalkFits(table, name, out);
      var sup := FirstIdentifier(table[cursor.value].supertype);
      if sup == "" {
        break;
      }
      cursor := FindSpec(table, sup);
    }
  }

  // ----- the chain is the ancestry -----

  // The ancestor k steps up, without any guard.
  ghost function Ancestor(table: seq<Spec>, name: string, k: nat): (r: Option<nat>)
    ensures r.Some? ==> r.value < |table|
  {
    if k == 0 then FindSpec(table, name)
    else
      var below := Ancestor(table, name, k - 1);
      if below.Some? then Parent(table, below.value) else None
  }

  lemma {:induction false} ChainFollowsAncestors(table: seq<Spec>, name: string, chain: seq<nat>, k: nat)
    requires IsChain(table, name, chain) && k < |chain|
    ensures Ancestor(table, name, k) == Some(chain[k])
  {
    if k > 0 {
      ChainFollowsAncestors(table, name, chain, k - 1);
    }
  }

  lemma ParentOfMember(table: seq<Spec>, name: string, chain: seq<nat>, i: nat)
    requires IsChain(table, name, chain) && i in chain
    ensures match Parent(table, i)
            case Some(p) => p in chain
            case None => Next(table, name, chain).None?
  {
    var k :| 0 <= k < |chain| && chain[k] == i;
    if k + 1 < |chain| {
      assert Parent(table, chain[k + 1 - 1]) == Some(chain[k + 1]);
    }
  }

  // No ancestor is missed, however the table loops.
  lemma {:induction false} ChainHoldsEveryAncestor(table: seq<Spec>, name: string, chain: seq<nat>, k: nat)
    requires IsChain(table, name, chain)
    ensures match Ancestor(table, name, k)
            case Some(a) => a in chain
            case None => Next(table, name, chain).None?
  {
    if k > 0 {
      ChainHoldsEveryAncestor(table, name, chain, k - 1);
      var below := Ancestor(table, name, k - 1);
      if below.Some? {
        ParentOfMember(table, name, chain, below.value);
      }
    }
  }

  // The walk stops for want of a parent exactly when climbing without the guard would end.
  lemma EndsAtRootExactly(table: seq<Spec>, name: string, chain: seq<nat>)
    requires IsChain(table, name, chain)
    ensures Next(table, name, chain).None? <==> exists k: nat :: Ancestor(table, name, k).None?
  {
    if Next(table, name, chain).None? {
      if chain != [] {
        ChainFollowsAncestors(table, name, chain, |chain| - 1);
      }
      assert Ancestor(table, name, |chain|).None?;
    } else {
      forall k: nat ensures Ancestor(table, name, k).Some? {
        ChainHoldsEveryAncestor(table, name, chain, k);
      }
    }
  }

  lemma ChainIsUnique(table: seq<Spec>, name: string, a: seq<nat>, b: seq<nat>)
    requires IsChain(table, name, a) && IsChain(table, name, b)
    ensures a == b
  {
    if |a| <= |b| {
      PrefixIsWhole(table, name, a, b);
    } else {
      PrefixIsWhole(table, name, b, a);
    }
  }

  lemma PrefixIsWhole(table: seq<Spec>, name: string, a: seq<nat>, b: seq<nat>)
    requires IsChain(table, name, a) && IsChain(table, name, b) && |a| <= |b|
    ensures a == b
  {
    forall k | 0 <= k < |a| ensures a[k] == b[k] {
      ChainFollowsAncestors(table, name, a, k);
      ChainFollowsAncestors(table, name, b, k);
    }
    if |a| < |b| {
      var n := |a|;
      ChainFollowsAncestors(table, name, b, n);
      ChainHoldsEveryAncestor(table, name, a, n);
    }
  }

  // ----- which text names the parent -----

  lemma {:induction false} TrimEndKeeps(name: string, rest: string) returns (kept: string)
    requires name != "" && !IsSpace(name[|name| - 1])
    ensures TrimEnd(name + rest) == name + kept && kept <= rest
  {
    var s := name + rest;
    kept := rest;
    if rest != "" && IsSpace(rest[|rest| - 1]) {
      assert s[..|s| - 1] == name + rest[..|rest| - 1];
      kept := TrimEndKeeps(name, rest[..|rest| - 1]);
    } else {
      assert s[|s| - 1] == if rest == "" then name[|name| - 1] else rest[|rest| - 1];
    }
  }

  lemma {:induction false} PrefixOfName(name: string, rest: string)
    requires forall c <- name :: IsIdentifierChar(c)
    requires rest != "" ==> !IsIdentifierChar(rest[0])
    ensures IdentifierPrefix(name + rest) == name
  {
    if name == "" {
      assert name + rest == rest;
    } else {
      assert name[0] in name && (name + rest)[1..] == name[1..] + rest;
      PrefixOfName(name[1..], rest);
    }
  }

  // The parent is the first row with the name that a supertype starts with: letters, digits, `_` and `:` up
  // to the first other character, so only the first part of an intersection or a union counts.
  lemma ParentIsFirstName(table: seq<Spec>, i: nat, name: string, rest: string)
    requires i < |table| && table[i].supertype == name + rest && name != ""
    requires forall c <- name :: '0' <= c <= '9' || 'a' <= c <= 'z' || 'A' <= c <= 'Z' || c in {'_', ':'}
    requires rest != "" ==> var c := rest[0]; !('0' <= c <= '9' || 'a' <= c <= 'z' || 'A' <= c <= 'Z' || c in {'_', ':'})
    ensures Parent(table, i) == FindSpec(table, name)
  {
    assert name[0] in name && name[|name| - 1] in name;
    assert TrimStart(name + rest) == name + rest by { assert !IsSpace((name + rest)[0]); }
    var kept := TrimEndKeeps(name, rest);
    PrefixOfName(name, kept);
  }
}
