/**
 * What the decompilation code sees of a top-level type definition, and the grouping of
 * types into output files that `DecompileDll` performs before decompiling.
 * `WholeProjectDecompiler.CleanUpFileName`, `CleanUpDirectoryName` and
 * `CSharpDecompiler.MemberIsHidden` belong to the decompiler; the first two are
 * function parameters here and the third is a field of the type definition.
 */
module DecompilerBoundary {
  import opened Strings
  import opened Paths

  /** A top-level type: its name, its namespace (empty for the global one) and `MemberIsHidden`. */
  datatype TypeDefinition = TypeDefinition(name: string, ns: string, hidden: bool)

  /** One `IGrouping`: its key, as first produced, and its types in source order. */
  datatype Group = Group(key: string, members: seq<TypeDefinition>)

  /**
   * The grouping key: the cleaned type name with `.cs`, inside the cleaned namespace
   * directory unless the namespace is empty.
   */
  function GroupKey(t: TypeDefinition, cleanFile: string -> string, cleanDir: string -> string): string
  {
    if |t.ns| == 0 then cleanFile(t.name) + ".cs"
    else Combine(cleanDir(t.ns), cleanFile(t.name) + ".cs")
  }

  /**
   * The key always ends in the source file name, and it is that file name alone exactly
   * when the namespace is empty (given that the clean-up functions produce a
   * separator-free name and a non-empty directory).
   */
  lemma GroupKeyShape(t: TypeDefinition, cleanFile: string -> string, cleanDir: string -> string)
    requires Separator !in cleanFile(t.name)
    requires |t.ns| > 0 ==> |cleanDir(t.ns)| > 0
    ensures GetFileName(GroupKey(t, cleanFile, cleanDir)) == cleanFile(t.name) + ".cs"
    ensures GroupKey(t, cleanFile, cleanDir) == cleanFile(t.name) + ".cs" <==> |t.ns| == 0
  {
    var file := cleanFile(t.name) + ".cs";
    assert Separator !in file by {
      assert forall i :: 0 <= i < |file| - 3 ==> file[i] == cleanFile(t.name)[i];
    }
    if |t.ns| == 0 {
      FileNameOfCombine("", file);
      assert Combine("", file) == file;
    } else {
      FileNameOfCombine(cleanDir(t.ns), file);
      var key := Combine(cleanDir(t.ns), file);
      assert |key| > |file| by {
        var dir := cleanDir(t.ns);
        if dir[|dir| - 1] == Separator {
          assert key == dir + file;
        } else {
          assert key == dir + [Separator] + file;
        }
      }
    }
  }

  /** Adds one type to the group whose key equals its key ignoring case, or opens a new group. */
  function AddToGroups(groups: seq<Group>, key: string, t: TypeDefinition): (r: seq<Group>)
    ensures |r| == |groups| || |r| == |groups| + 1
  {
    if |groups| == 0 then [Group(key, [t])]
    else if EqualsIgnoreCase(groups[0].key, key) then
      [groups[0].(members := groups[0].members + [t])] + groups[1..]
    else [groups[0]] + AddToGroups(groups[1..], key, t)
  }

  /** `types.GroupBy(keyOf, StringComparer.OrdinalIgnoreCase)`: groups in order of first key. */
  function GroupBy(types: seq<TypeDefinition>, keyOf: TypeDefinition -> string): seq<Group>
  {
    if |types| == 0 then []
    else
      var last := types[|types| - 1];
      AddToGroups(GroupBy(types[..|types| - 1], keyOf), keyOf(last), last)
  }

  /** No two groups have keys that are equal ignoring case. */
  ghost predicate DistinctKeys(groups: seq<Group>)
  {
    forall i, j :: 0 <= i < j < |groups| ==> !EqualsIgnoreCase(groups[i].key, groups[j].key)
  }

  /** Every type sits in a group whose key equals its own key ignoring case. */
  ghost predicate MembersMatchKey(groups: seq<Group>, keyOf: TypeDefinition -> string)
  {
    forall i, m :: 0 <= i < |groups| && m in groups[i].members ==> EqualsIgnoreCase(keyOf(m), groups[i].key)
  }

  /** Ordinal ignore-case equality is symmetric and transitive. */
  lemma IgnoreCaseIsEquivalence(a: string, b: string, c: string)
    ensures EqualsIgnoreCase(a, b) ==> EqualsIgnoreCase(b, a)
    ensures EqualsIgnoreCase(a, b) && EqualsIgnoreCase(b, c) ==> EqualsIgnoreCase(a, c)
  {
  }

  /** `m` is a member of one of the groups. */
  ghost predicate Grouped(groups: seq<Group>, m: TypeDefinition)
  {
    exists i :: 0 <= i < |groups| && m in groups[i].members
  }

  /** `key` is the added key or the key of one of the groups. */
  ghost predicate KeyFrom(key: string, groups: seq<Group>, added: string)
  {
    key == added || exists j :: 0 <= j < |groups| && key == groups[j].key
  }

  lemma {:induction false} AddToGroupsKeys(groups: seq<Group>, key: string, t: TypeDefinition)
    ensures forall i :: 0 <= i < |AddToGroups(groups, key, t)| ==> KeyFrom(AddToGroups(groups, key, t)[i].key, groups, key)
  {
    var r := AddToGroups(groups, key, t);
    if |groups| > 0 {
      if EqualsIgnoreCase(groups[0].key, key) {
        forall i | 0 <= i < |r| ensures KeyFrom(r[i].key, groups, key) {
          assert r[i].key == groups[i].key;
        }
      } else {
        var rest := AddToGroups(groups[1..], key, t);
        AddToGroupsKeys(groups[1..], key, t);
        forall i | 0 <= i < |r| ensures KeyFrom(r[i].key, groups, key) {
          if i == 0 {
            assert r[0].key == groups[0].key;
          } else {
            assert r[i] == rest[i - 1];
            if rest[i - 1].key != key {
              var j :| 0 <= j < |groups[1..]| && rest[i - 1].key == groups[1..][j].key;
              assert groups[1..][j] == groups[j + 1];
            }
          }
        }
      }
    }
  }

  lemma {:induction false} AddToGroupsMembers(groups: seq<Group>, key: string, t: TypeDefinition)
    ensures forall m :: Grouped(AddToGroups(groups, key, t), m) <==> m == t || Grouped(groups, m)
  {
    var r := AddToGroups(groups, key, t);
    if |groups| == 0 {
      assert r[0].members == [t];
    } else if EqualsIgnoreCase(groups[0].key, key) {
      forall m ensures Grouped(r, m) <==> m == t || Grouped(groups, m) {
        if Grouped(r, m) {
          var i :| 0 <= i < |r| && m in r[i].members;
          if i > 0 {
            assert r[i] == groups[i];
          } else if m != t {
            assert m in groups[0].members;
          }
        }
        if m == t {
          assert m in r[0].members;
        } else if Grouped(groups, m) {
          var i :| 0 <= i < |groups| && m in groups[i].members;
          if i > 0 {
            assert r[i] == groups[i];
          } else {
            assert m in r[0].members;
          }
        }
      }
    } else {
      var rest := AddToGroups(groups[1..], key, t);
      AddToGroupsMembers(groups[1..], key, t);
      assert r == [groups[0]] + rest;
      forall m | Grouped(r, m) && m != t ensures Grouped(groups, m) {
        var i :| 0 <= i < |r| && m in r[i].members;
        if i == 0 {
          assert m in groups[0].members;
        } else {
          assert m in rest[i - 1].members;
          assert Grouped(rest, m);
          assert Grouped(groups[1..], m);
          var j :| 0 <= j < |groups[1..]| && m in groups[1..][j].members;
          assert m in groups[j + 1].members;
        }
      }
      forall m | m == t || Grouped(groups, m) ensures Grouped(r, m) {
        if m == t || !(m in groups[0].members) {
          if m != t {
            var i :| 0 <= i < |groups| && m in groups[i].members;
            assert i > 0;
            assert m in groups[1..][i - 1].members;
            assert Grouped(groups[1..], m);
          }
          assert Grouped(rest, m);
          var j :| 0 <= j < |rest| && m in rest[j].members;
          assert m in r[j + 1].members;
        } else {
          assert m in r[0].members;
        }
      }
    }
  }

  lemma {:induction false} AddToGroupsKeepsInvariant(groups: seq<Group>, keyOf: TypeDefinition -> string, t: TypeDefinition)
    requires DistinctKeys(groups) && MembersMatchKey(groups, keyOf)
    ensures DistinctKeys(AddToGroups(groups, keyOf(t), t))
    ensures MembersMatchKey(AddToGroups(groups, keyOf(t), t), keyOf)
  {
    var k := keyOf(t);
    var r := AddToGroups(groups, k, t);
    if |groups| == 0 {
      assert r[0].members == [t];
    } else if EqualsIgnoreCase(groups[0].key, k) {
      forall i, m | 0 <= i < |r| && m in r[i].members ensures EqualsIgnoreCase(keyOf(m), r[i].key) {
        if i > 0 {
          assert r[i] == groups[i];
        } else if m != t {
          assert m in groups[0].members;
        } else {
          IgnoreCaseIsEquivalence(groups[0].key, k, k);
        }
      }
      forall i, j | 0 <= i < j < |r| ensures !EqualsIgnoreCase(r[i].key, r[j].key) {
        assert r[i].key == groups[i].key && r[j].key == groups[j].key;
      }
    } else {
      var rest := AddToGroups(groups[1..], k, t);
      AddToGroupsKeepsInvariant(groups[1..], keyOf, t);
      AddToGroupsKeys(groups[1..], k, t);
      assert r == [groups[0]] + rest;
      forall i, j | 0 <= i < j < |r| ensures !EqualsIgnoreCase(r[i].key, r[j].key) {
        if i > 0 {
          assert r[i] == rest[i - 1] && r[j] == rest[j - 1];
        } else {
          assert r[j] == rest[j - 1];
          assert KeyFrom(rest[j - 1].key, groups[1..], k);
          if rest[j - 1].key == k {
            IgnoreCaseIsEquivalence(groups[0].key, k, k);
          } else {
            var q :| 0 <= q < |groups[1..]| && rest[j - 1].key == groups[1..][q].key;
            assert groups[1..][q] == groups[q + 1];
          }
        }
      }
      forall i, m | 0 <= i < |r| && m in r[i].members ensures EqualsIgnoreCase(keyOf(m), r[i].key) {
        if i > 0 {
          assert r[i] == rest[i - 1];
        }
      }
    }
  }

  /**
   * `GroupBy` yields groups with keys distinct ignoring case, puts every type of the input
   * into a group whose key matches its own, and invents no types.
   */
  lemma {:induction false} GroupByPartitions(types: seq<TypeDefinition>, keyOf: TypeDefinition -> string)
    ensures DistinctKeys(GroupBy(types, keyOf))
    ensures MembersMatchKey(GroupBy(types, keyOf), keyOf)
    ensures forall m :: Grouped(GroupBy(types, keyOf), m) <==> m in types
  {
    if |types| > 0 {
      var init := types[..|types| - 1];
      var last := types[|types| - 1];
      GroupByPartitions(init, keyOf);
      AddToGroupsKeepsInvariant(GroupBy(init, keyOf), keyOf, last);
      AddToGroupsMembers(GroupBy(init, keyOf), keyOf(last), last);
      assert types == init + [last];
    }
  }

  /** The members of all groups, group after group. */
  function AllMembers(groups: seq<Group>): seq<TypeDefinition>
  {
    if |groups| == 0 then [] else groups[0].members + AllMembers(groups[1..])
  }

  lemma {:induction false} AddToGroupsAddsOnce(groups: seq<Group>, key: string, t: TypeDefinition)
    ensures multiset(AllMembers(AddToGroups(groups, key, t))) == multiset(AllMembers(groups)) + multiset{t}
  {
    var r := AddToGroups(groups, key, t);
    if |groups| == 0 {
      assert r[1..] == [];
    } else if EqualsIgnoreCase(groups[0].key, key) {
      assert r[1..] == groups[1..];
    } else {
      AddToGroupsAddsOnce(groups[1..], key, t);
      assert r[1..] == AddToGroups(groups[1..], key, t);
    }
  }

  /** `GroupBy` neither drops nor duplicates a type: its groups hold the input as a multiset. */
  lemma {:induction false} GroupByKeepsEveryType(types: seq<TypeDefinition>, keyOf: TypeDefinition -> string)
    ensures multiset(AllMembers(GroupBy(types, keyOf))) == multiset(types)
  {
    if |types| > 0 {
      var init := types[..|types| - 1];
      var last := types[|types| - 1];
      GroupByKeepsEveryType(init, keyOf);
      AddToGroupsAddsOnce(GroupBy(init, keyOf), keyOf(last), last);
      assert types == init + [last];
    }
  }
}
