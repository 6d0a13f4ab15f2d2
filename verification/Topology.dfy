/** The topology file both services load: named paths in file order, and the protection table. */
module Topology {
  import opened Basics

  datatype PathSpec = PathSpec(links: seq<string>, role: Option<string>, capacity: Option<int>)

  /** `names` is the file order of the keys of `specs`. */
  datatype Config = Config(names: seq<string>, specs: map<string, PathSpec>, protection: map<string, string>)

  /** What every ordered dictionary satisfies: its key order lists each key once. */
  ghost predicate Valid(c: Config) {
    && (forall n :: n in c.names <==> n in c.specs)
    && (forall i, j :: 0 <= i < j < |c.names| ==> c.names[i] != c.names[j])
  }

  /** The healer's test: the role must be spelled out. */
  predicate HealerServes(spec: PathSpec, link: string) {
    spec.role == Some("working") && link in spec.links
  }

  /** The path manager's test: a path without a role counts as working. */
  predicate ManagerServes(spec: PathSpec, link: string) {
    (spec.role == None || spec.role == Some("working")) && link in spec.links
  }

  /** First name at or after position `i` whose path passes the healer's test. */
  function HealerPathFrom(c: Config, link: string, i: nat): (r: Option<string>)
    requires Valid(c) && i <= |c.names|
    ensures r.Some? ==> r.value in c.specs && HealerServes(c.specs[r.value], link)
    decreases |c.names| - i
  {
    if i == |c.names| then None
    else if HealerServes(c.specs[c.names[i]], link) then Some(c.names[i])
    else HealerPathFrom(c, link, i + 1)
  }

  function HealerPath(c: Config, link: string): (r: Option<string>)
    requires Valid(c)
    ensures r.Some? ==> r.value in c.specs && HealerServes(c.specs[r.value], link)
  {
    HealerPathFrom(c, link, 0)
  }

  function ManagerPathFrom(c: Config, link: string, i: nat): Option<string>
    requires Valid(c) && i <= |c.names|
    decreases |c.names| - i
  {
    if i == |c.names| then None
    else if ManagerServes(c.specs[c.names[i]], link) then Some(c.names[i])
    else ManagerPathFrom(c, link, i + 1)
  }

  function ProtectionPath(c: Config, link: string): Option<string> {
    if link in c.protection then Some(c.protection[link]) else None
  }

  /** The lookup returns the first path in file order that serves the link, and fails only if none does. */
  lemma {:induction false} HealerPathIsFirst(c: Config, link: string, i: nat)
    requires Valid(c) && i <= |c.names|
    ensures HealerPathFrom(c, link, i) == None <==>
            forall k :: i <= k < |c.names| ==>
              !(c.specs[c.names[k]].role == Some("working") && link in c.specs[c.names[k]].links)
    ensures HealerPathFrom(c, link, i).Some? ==>
              exists k :: i <= k < |c.names| && HealerPathFrom(c, link, i) == Some(c.names[k])
                       && c.specs[c.names[k]].role == Some("working") && link in c.specs[c.names[k]].links
                       && forall j :: i <= j < k ==> !HealerServes(c.specs[c.names[j]], link)
    decreases |c.names| - i
  {
    if i < |c.names| {
      if HealerServes(c.specs[c.names[i]], link) {
        assert HealerPathFrom(c, link, i) == Some(c.names[i]);
      } else {
        HealerPathIsFirst(c, link, i + 1);
      }
    }
  }

  /** The path manager's lookup: the first path in file order that carries the link and is working or gives no role. */
  lemma {:induction false} ManagerPathIsFirst(c: Config, link: string, i: nat)
    requires Valid(c) && i <= |c.names|
    ensures ManagerPathFrom(c, link, i) == None <==>
            forall k :: i <= k < |c.names| ==>
              !((c.specs[c.names[k]].role == None || c.specs[c.names[k]].role == Some("working"))
                && link in c.specs[c.names[k]].links)
    ensures ManagerPathFrom(c, link, i).Some? ==>
              exists k :: i <= k < |c.names| && ManagerPathFrom(c, link, i) == Some(c.names[k])
                       && (c.specs[c.names[k]].role == None || c.specs[c.names[k]].role == Some("working"))
                       && link in c.specs[c.names[k]].links
                       && forall j :: i <= j < k ==> !ManagerServes(c.specs[c.names[j]], link)
    decreases |c.names| - i
  {
    if i < |c.names| {
      if ManagerServes(c.specs[c.names[i]], link) {
        assert ManagerPathFrom(c, link, i) == Some(c.names[i]);
      } else {
        ManagerPathIsFirst(c, link, i + 1);
      }
    }
  }

  /** Position `k` is the first path, role given or not, that the path manager would pick. */
  ghost predicate FirstManaged(c: Config, link: string, i: nat, k: nat)
    requires Valid(c)
  {
    && i <= k < |c.names|
    && ManagerServes(c.specs[c.names[k]], link)
    && forall j :: i <= j < k ==> !ManagerServes(c.specs[c.names[j]], link)
  }

  /**
   * The two services resolve a link to the same working path exactly when the first path the
   * path manager would pick names its role.
   */
  lemma {:induction false} ResolversAgreeIff(c: Config, link: string, i: nat)
    requires Valid(c) && i <= |c.names|
    ensures HealerPathFrom(c, link, i) == ManagerPathFrom(c, link, i) <==>
            forall k: nat :: FirstManaged(c, link, i, k) ==> c.specs[c.names[k]].role == Some("working")
    decreases |c.names| - i
  {
    if i < |c.names| {
      var spec := c.specs[c.names[i]];
      if ManagerServes(spec, link) {
        assert FirstManaged(c, link, i, i);
        assert forall k: nat :: FirstManaged(c, link, i, k) ==> k == i;
        if spec.role == None {
          HealerPathIsFirst(c, link, i + 1);
        }
      } else {
        ResolversAgreeIff(c, link, i + 1);
        assert forall k: nat :: FirstManaged(c, link, i, k) <==> FirstManaged(c, link, i + 1, k);
      }
    }
  }

  /** The topology file as shipped. */
  const SHIPPED := Config(
    ["P_work_L1", "P_prot_L2", "P_work_L3"],
    map["P_work_L1" := PathSpec(["L1"], Some("working"), Some(1)),
        "P_prot_L2" := PathSpec(["L2"], Some("protection"), Some(1)),
        "P_work_L3" := PathSpec(["L3"], Some("working"), Some(1))],
    map["L1" := "P_prot_L2", "L3" := "P_prot_L2"])

  lemma ShippedIsValid()
    ensures Valid(SHIPPED)
  {
    assert "P_work_L1"[8] != "P_prot_L2"[8] && "P_work_L1"[8] != "P_work_L3"[8] && "P_prot_L2"[8] != "P_work_L3"[8];
  }
}
