/** The capability catalogue: loading and clearing it, serving it, and fetching it. */
module CapabilityService {
  import opened Hdf
  import opened Sbuf
  import opened CapabilityModel

  const GROUP_NUM := 8

  /** Groups are kept in the order of the structure's fields, which is also the order of loading:
      video hardware encoders and decoders, video software, audio hardware, audio software. */
  type Groups = g: seq<seq<Capability>> | |g| == GROUP_NUM witness [[], [], [], [], [], [], [], []]

  /** The configuration tree: per group the parsed children, or nothing when the node is missing. */
  datatype Node = Missing | Present(children: seq<Capability>)
  type Config = c: seq<Node> | |c| == GROUP_NUM
    witness [Missing, Missing, Missing, Missing, Missing, Missing, Missing, Missing]

  function Concat(gs: seq<seq<Capability>>): seq<Capability> {
    if gs == [] then [] else Concat(gs[..|gs| - 1]) + gs[|gs| - 1]
  }

  const VIDEO_HW_ENCODER := 0
  const VIDEO_HW_DECODER := 1
  const VIDEO_SW_ENCODER := 2
  const VIDEO_SW_DECODER := 3
  const AUDIO_HW_ENCODER := 4
  const AUDIO_HW_DECODER := 5
  const AUDIO_SW_ENCODER := 6
  const AUDIO_SW_DECODER := 7

  /** All hardware entries come before all software entries; within each, video before audio and
      encoders before decoders. */
  function InServerOrder(g: Groups): seq<Capability> {
    g[VIDEO_HW_ENCODER] + g[VIDEO_HW_DECODER] + g[AUDIO_HW_ENCODER] + g[AUDIO_HW_DECODER] +
    g[VIDEO_SW_ENCODER] + g[VIDEO_SW_DECODER] + g[AUDIO_SW_ENCODER] + g[AUDIO_SW_DECODER]
  }

  lemma ConcatStep(gs: seq<seq<Capability>>, k: nat)
    requires k < |gs|
    ensures Concat(gs[..k + 1]) == Concat(gs[..k]) + gs[k]
  {
    assert gs[..k + 1][..k] == gs[..k];
  }

  lemma ConcatOfEight(o: Groups)
    ensures Concat(o) == o[0] + o[1] + o[2] + o[3] + o[4] + o[5] + o[6] + o[7]
  {
    assert o[..0] == [] && o[..8] == o && Concat(o[..1]) == o[0];
    hide Concat;
    ConcatStep(o, 1);
    ConcatStep(o, 2);
    ConcatStep(o, 3);
    ConcatStep(o, 4);
    ConcatStep(o, 5);
    ConcatStep(o, 6);
    ConcatStep(o, 7);
  }

  function Sizes(gs: seq<seq<Capability>>): nat {
    if gs == [] then 0 else Sizes(gs[..|gs| - 1]) + |gs[|gs| - 1]|
  }

  function ChildCount(c: seq<Node>): nat {
    if c == [] then 0 else
      ChildCount(c[..|c| - 1]) + match c[|c| - 1] case Missing => 0 case Present(children) => |children|
  }

  lemma SizesStep(gs: seq<seq<Capability>>, k: nat)
    requires k < |gs|
    ensures Sizes(gs[..k + 1]) == Sizes(gs[..k]) + |gs[k]|
  {
    assert gs[..k + 1][..k] == gs[..k];
  }

  lemma SizesOfEight(g: Groups)
    ensures Sizes(g) == |g[0]| + |g[1]| + |g[2]| + |g[3]| + |g[4]| + |g[5]| + |g[6]| + |g[7]|
  {
    SizesOfFour(g);
    assert g[..8] == g;
    hide Sizes;
    SizesStep(g, 4);
    SizesStep(g, 5);
    SizesStep(g, 6);
    SizesStep(g, 7);
  }

  lemma SizesOfFour(g: Groups)
    ensures Sizes(g[..4]) == |g[0]| + |g[1]| + |g[2]| + |g[3]|
  {
    assert g[..0] == [];
    SizesStep(g, 0);
    hide Sizes;
    SizesStep(g, 1);
    SizesStep(g, 2);
    SizesStep(g, 3);
  }

  /** Serving order does not change how many entries there are. */
  lemma CatalogueLength(g: Groups)
    ensures |InServerOrder(g)| == Sizes(g)
  {
    SizesOfEight(g);
  }

  // ---------- where the entries stand ----------

  /** The place of a group in the reply, from its kind: hardware before software, then video before
      audio, then encoders before decoders. */
  function Rank(i: nat): nat
    requires i < GROUP_NUM
  {
    var software, audio, decoder := i / 2 % 2, i / 4, i % 2;
    4 * software + 2 * audio + decoder
  }

  /** The summed sizes of those among the first `k` groups that are ranked below `r`. */
  function Below(g: Groups, r: nat, k: nat): nat
    requires k <= GROUP_NUM
  {
    if k == 0 then 0 else Below(g, r, k - 1) + if Rank(k - 1) < r then |g[k - 1]| else 0
  }

  /** How many entries are served before the group ranked `r`. */
  function Start(g: Groups, r: nat): nat { Below(g, r, GROUP_NUM) }

  function ServerOrder(g: Groups): Groups {
    [g[VIDEO_HW_ENCODER], g[VIDEO_HW_DECODER], g[AUDIO_HW_ENCODER], g[AUDIO_HW_DECODER],
     g[VIDEO_SW_ENCODER], g[VIDEO_SW_DECODER], g[AUDIO_SW_ENCODER], g[AUDIO_SW_DECODER]]
  }

  lemma RankOrders(g: Groups, i: nat)
    requires i < GROUP_NUM
    ensures Rank(i) < GROUP_NUM && ServerOrder(g)[Rank(i)] == g[i]
  {
  }

  lemma BelowStep(g: Groups, r: nat, k: nat)
    requires k < GROUP_NUM
    ensures Below(g, r, k + 1) == Below(g, r, k) + if Rank(k) < r then |g[k]| else 0
  {
  }

  /** The groups ranked exactly `r`, among the first `k`, make the difference between two starts. */
  lemma {:induction false} BelowDiffers(g: Groups, i: nat, k: nat)
    requires i < GROUP_NUM && k <= GROUP_NUM
    ensures Below(g, Rank(i) + 1, k) == Below(g, Rank(i), k) + if i < k then |g[i]| else 0
  {
    if k == 0 {
    } else {
      BelowDiffers(g, i, k - 1);
      RankOnce(i, k - 1);
    }
  }

  lemma RankTable()
    ensures Rank(0) == 0 && Rank(1) == 1 && Rank(2) == 4 && Rank(3) == 5
    ensures Rank(4) == 2 && Rank(5) == 3 && Rank(6) == 6 && Rank(7) == 7
  {
  }

  lemma RankOnce(i: nat, j: nat)
    requires i < GROUP_NUM && j < GROUP_NUM
    ensures Rank(i) == Rank(j) <==> i == j
  {
    RankTable();
    hide Rank;
    assert i in {0, 1, 2, 3, 4, 5, 6, 7} && j in {0, 1, 2, 3, 4, 5, 6, 7};
  }

  lemma RankTwice(r: nat)
    requires r < GROUP_NUM
    ensures Rank(r) < GROUP_NUM && Rank(Rank(r)) == r
  {
    RankTable();
    hide Rank;
    assert r in {0, 1, 2, 3, 4, 5, 6, 7};
  }

  lemma {:induction false} NothingBelow(g: Groups, k: nat)
    requires k <= GROUP_NUM
    ensures Below(g, 0, k) == 0
  {
    if k == 0 {
    } else {
      NothingBelow(g, k - 1);
    }
  }

  lemma {:induction false} StartIsLength(g: Groups, r: nat)
    requires r <= GROUP_NUM
    ensures |Concat(ServerOrder(g)[..r])| == Start(g, r)
  {
    hide Below;
    hide ServerOrder;
    if r == 0 {
      NothingBelow(g, GROUP_NUM);
    } else {
      StartIsLength(g, r - 1);
      ConcatStep(ServerOrder(g), r - 1);
      RankTwice(r - 1);
      BelowDiffers(g, Rank(r - 1), GROUP_NUM);
      RankOrders(g, Rank(r - 1));
      hide Concat;
      hide Rank;
    }
  }

  /** Each group's entries stand together, in their own order, behind all groups ranked below it. */
  lemma GroupStands(g: Groups, i: nat)
    requires i < GROUP_NUM
    ensures var at := Start(g, Rank(i));
      at + |g[i]| <= |InServerOrder(g)| && InServerOrder(g)[at..at + |g[i]|] == g[i]
  {
    var o, r := ServerOrder(g), Rank(i);
    RankOrders(g, i);
    StartIsLength(g, r);
    ConcatOfEight(o);
    assert InServerOrder(g) == Concat(o);
    hide ServerOrder;
    hide InServerOrder;
    hide Rank;
    ConcatStep(o, r);
    ConcatPrefix(o, r + 1);
    hide Concat;
    MiddleOfPrefix(Concat(o[..r]), o[r], Concat(o));
  }

  lemma MiddleOfPrefix(a: seq<Capability>, b: seq<Capability>, all: seq<Capability>)
    requires a + b <= all
    ensures all[|a|..|a| + |b|] == b
  {
    assert all[..|a + b|] == a + b;
  }

  /** Entry by entry, as far as a client has read. */
  ghost predicate InRankOrder(g: Groups, caps: seq<Capability>) {
    forall i, k :: 0 <= i < GROUP_NUM && 0 <= k < |g[i]| && Start(g, Rank(i)) + k < |caps| ==>
      caps[Start(g, Rank(i)) + k] == g[i][k]
  }

  lemma PrefixInRankOrder(g: Groups, caps: seq<Capability>)
    requires caps <= InServerOrder(g)
    ensures InRankOrder(g, caps)
  {
    hide InServerOrder;
    hide Rank;
    forall i, k | 0 <= i < GROUP_NUM && 0 <= k < |g[i]| && Start(g, Rank(i)) + k < |caps|
      ensures caps[Start(g, Rank(i)) + k] == g[i][k]
    {
      GroupStands(g, i);
      var at := Start(g, Rank(i));
      assert g[i][k] == InServerOrder(g)[at..at + |g[i]|][k];
    }
  }

  // ---------- loading ----------

  /** The allocation for group `i` is refused. */
  predicate Denied(config: Config, granted: seq<bool>, i: nat)
    requires i < GROUP_NUM && |granted| == GROUP_NUM
  {
    config[i].Present? && |config[i].children| > 0 && !granted[i]
  }

  /** The groups once those below `k` that are present have got blocks of the right size. */
  function Allocated(was: Groups, config: Config, junk: Capability, k: nat): (g: seq<seq<Capability>>)
    ensures |g| == GROUP_NUM
  {
    seq(GROUP_NUM, i requires 0 <= i < GROUP_NUM =>
      if i < k && config[i].Present? then seq(|config[i].children|, _ => junk) else was[i])
  }

  /** The groups once those below `k` have been filled. */
  function Filled(was: Groups, config: Config, junk: Capability, k: nat): (g: seq<seq<Capability>>)
    ensures |g| == GROUP_NUM
  {
    seq(GROUP_NUM, i requires 0 <= i < GROUP_NUM =>
      if i < k && config[i].Present? then config[i].children else Allocated(was, config, junk, GROUP_NUM)[i])
  }

  /** Groups that a failing load leaves with unfilled blocks of the right size. */
  ghost predicate Unfilled(config: Config, junk: Capability, was: Groups, left: Groups, i: nat)
    requires i < GROUP_NUM
  {
    match config[i]
    case Missing => left[i] == was[i]
    case Present(children) => |left[i]| == |children| && forall k :: 0 <= k < |children| ==> left[i][k] == junk
  }

  /** What a load that stops at group `at` leaves behind: a refused allocation empties its group, keeps
      the unfilled blocks before it, and does not get to the groups after it; a missing node is noticed
      only after all blocks have been allocated and counted, and stops the filling. */
  ghost predicate Abandoned(config: Config, granted: seq<bool>, junk: Capability, at: nat,
                            was: Groups, total: int, left: Groups, count: int)
    requires |granted| == GROUP_NUM
  {
    && at < GROUP_NUM
    && if exists i :: 0 <= i < GROUP_NUM && Denied(config, granted, i) then
         && Denied(config, granted, at) && (forall i :: 0 <= i < at ==> !Denied(config, granted, i))
         && (forall i :: 0 <= i < at ==> Unfilled(config, junk, was, left, i))
         && left[at] == [] && (forall i :: at < i < GROUP_NUM ==> left[i] == was[i])
         && count == total + ChildCount(config[..at])
       else
         && config[at].Missing? && (forall i :: 0 <= i < at ==> config[i].Present?)
         && (forall i :: 0 <= i < at ==> left[i] == config[i].children)
         && (forall i :: at <= i < GROUP_NUM ==> Unfilled(config, junk, was, left, i))
         && count == total + ChildCount(config)
  }

  lemma AllocationStops(config: Config, granted: seq<bool>, junk: Capability, at: nat, was: Groups, total: int, left: Groups)
    requires |granted| == GROUP_NUM && at < GROUP_NUM && Denied(config, granted, at)
    requires forall i :: 0 <= i < at ==> !Denied(config, granted, i)
    requires left == Allocated(was, config, junk, at)[at := []]
    ensures Abandoned(config, granted, junk, at, was, total, left, total + ChildCount(config[..at]))
  {
  }

  class Catalogue {
    var groups: Groups
    var total: int
    var inited: bool

    constructor ()
      ensures total == 0 && !inited && Served() == []
    {
      groups, total, inited := [[], [], [], [], [], [], [], []], 0, false;
      new;
      CatalogueLength(groups);
      SizesOfEight(groups);
    }

    /** The entries in the order they are served. */
    ghost function Served(): seq<Capability>
      reads this
    {
      InServerOrder(groups)
    }

    ghost predicate Consistent()
      reads this
    {
      total == |Served()| && AllValid(Served())
    }

    /** `junk` stands for the uninitialised entries of a fresh block; `granted` for the allocations.
        A successful load adds the number of children to whatever the total was, so the total is
        right exactly when it started from zero.  `at` is the group at which a failing load stops. */
    method Load(config: Config, granted: seq<bool>, junk: Capability) returns (ret: int, ghost at: nat)
      requires |granted| == GROUP_NUM && total + ChildCount(config) <= INT32_MAX
      modifies this
      ensures ret == HDF_SUCCESS <==>
        forall i :: 0 <= i < GROUP_NUM ==> config[i].Present? && !Denied(config, granted, i)
      ensures ret == HDF_SUCCESS ==> inited && forall i :: 0 <= i < GROUP_NUM ==> config[i] == Present(groups[i])
      ensures ret == HDF_SUCCESS ==> total == old(total) + |Served()| == old(total) + ChildCount(config)
      ensures ret == HDF_SUCCESS ==> (total == |Served()| <==> old(total) == 0)
      ensures ret != HDF_SUCCESS ==>
        ret == HDF_FAILURE && inited == old(inited) &&
        Abandoned(config, granted, junk, at, old(groups), old(total), groups, total)
    {
      ghost var was := groups;
      ret, at := AllocateGroups(config, granted, junk);
      if ret != HDF_SUCCESS {
        return;
      }
      ret, at := FillGroups(config, was, junk);
      if ret != HDF_SUCCESS {
        return;
      }
      inited := true;
      ChildCountIsSizes(config, groups);
      CatalogueLength(groups);
    }

    /** The first pass: a block for every group that is present, and the running total. */
    method AllocateGroups(config: Config, granted: seq<bool>, junk: Capability) returns (ret: int, ghost at: nat)
      requires |granted| == GROUP_NUM
      modifies this`groups, this`total
      ensures ret == HDF_SUCCESS <==> forall i :: 0 <= i < GROUP_NUM ==> !Denied(config, granted, i)
      ensures ret == HDF_SUCCESS ==>
        groups == Allocated(old(groups), config, junk, GROUP_NUM) && total == old(total) + ChildCount(config)
      ensures ret != HDF_SUCCESS ==>
        ret == HDF_FAILURE && Abandoned(config, granted, junk, at, old(groups), old(total), groups, total)
    {
      hide Abandoned;
      at := 0;
      assert groups == Allocated(old(groups), config, junk, 0);
      for index := 0 to GROUP_NUM
        modifies this`groups, this`total
        invariant total == old(total) + ChildCount(config[..index])
        invariant forall i :: 0 <= i < index ==> !Denied(config, granted, i)
        invariant groups == Allocated(old(groups), config, junk, index)
      {
        assert config[..index + 1][..index] == config[..index];
        if config[index].Present? {
          var num := |config[index].children|;
          if num > 0 && !granted[index] {
            groups := groups[index := []];
            AllocationStops(config, granted, junk, index, old(groups), old(total), groups);
            return HDF_FAILURE, index;
          }
          groups := groups[index := seq(num, _ => junk)];
          total := total + num;
        }
        assert groups == Allocated(old(groups), config, junk, index + 1);
      }
      assert config[..GROUP_NUM] == config;
      return HDF_SUCCESS, 0;
    }

    /** The second pass: the children of every group, until a node is missing. */
    method FillGroups(config: Config, ghost was: Groups, junk: Capability) returns (ret: int, ghost at: nat)
      requires groups == Allocated(was, config, junk, GROUP_NUM)
      modifies this`groups
      ensures ret == HDF_SUCCESS <==> forall i :: 0 <= i < GROUP_NUM ==> config[i].Present?
      ensures ret == HDF_SUCCESS ==> forall i :: 0 <= i < GROUP_NUM ==> config[i] == Present(groups[i])
      ensures ret != HDF_SUCCESS ==>
        && ret == HDF_FAILURE && at < GROUP_NUM && config[at].Missing? && (forall i :: 0 <= i < at ==> config[i].Present?)
        && groups == Filled(was, config, junk, at)
    {
      at := 0;
      assert groups == Filled(was, config, junk, 0);
      for index := 0 to GROUP_NUM
        modifies this`groups
        invariant forall i :: 0 <= i < index ==> config[i].Present?
        invariant groups == Filled(was, config, junk, index)
      {
        if config[index].Missing? {
          return HDF_FAILURE, index;
        }
        groups := groups[index := config[index].children];
        assert groups == Filled(was, config, junk, index + 1);
      }
      return HDF_SUCCESS, 0;
    }

    method Clear()
      modifies this
      ensures !inited && total == 0 && Served() == []
    {
      for index := 0 to GROUP_NUM
        modifies this
        invariant forall i :: 0 <= i < index ==> groups[i] == []
      {
        if groups[index] != [] {
          groups := groups[index := []];
        }
      }
      inited := false;
      total := 0;
      CatalogueLength(groups);
      SizesOfEight(groups);
    }

    method AllCapabilityMarshalling(reply: HdfSBuf) returns (ret: int)
      requires |reply.items| <= reply.capacity && AllValid(Served())
      modifies reply`items
      ensures Wrote(old(reply.items), reply.items, reply.capacity, EncodeCaps(Served()), ret == HDF_SUCCESS)
      ensures ret in {HDF_SUCCESS, HDF_FAILURE}
    {
      var codeCapGroups: Groups := [
        groups[VIDEO_HW_ENCODER], groups[VIDEO_HW_DECODER], groups[AUDIO_HW_ENCODER], groups[AUDIO_HW_DECODER],
        groups[VIDEO_SW_ENCODER], groups[VIDEO_SW_DECODER], groups[AUDIO_SW_ENCODER], groups[AUDIO_SW_DECODER]
      ];
      ConcatOfEight(codeCapGroups);
      ret := MarshalGroups(reply, codeCapGroups);
    }

    method MarshalGroups(reply: HdfSBuf, order: seq<seq<Capability>>) returns (ret: int)
      requires |reply.items| <= reply.capacity && AllValid(Concat(order))
      modifies reply`items
      ensures Wrote(old(reply.items), reply.items, reply.capacity, EncodeCaps(Concat(order)), ret == HDF_SUCCESS)
      ensures ret in {HDF_SUCCESS, HDF_FAILURE}
    {
      ghost var sent: seq<Item> := [];
      assert sent == EncodeCaps(Concat(order[..0]));
      for g := 0 to |order|
        invariant Wrote(old(reply.items), reply.items, reply.capacity, sent, true)
        invariant sent == EncodeCaps(Concat(order[..g]))
      {
        ServeGroup(order, g);
        hide EncodeCaps;
        hide Concat;
        ghost var mid := reply.items;
        ret := MarshalGroup(reply, order[g]);
        WroteThen(old(reply.items), mid, reply.items, reply.capacity, sent, EncodeCaps(order[g]), ret == HDF_SUCCESS);
        if ret != HDF_SUCCESS {
          return;
        }
        sent := EncodeCaps(Concat(order[..g + 1]));
      }
      assert order[..|order|] == order;
      return HDF_SUCCESS;
    }

    method MarshalGroup(reply: HdfSBuf, group: seq<Capability>) returns (ret: int)
      requires |reply.items| <= reply.capacity && AllValid(group)
      modifies reply`items
      ensures Wrote(old(reply.items), reply.items, reply.capacity, EncodeCaps(group), ret == HDF_SUCCESS)
      ensures ret in {HDF_SUCCESS, HDF_FAILURE}
    {
      hide EncodeCap;
      for i := 0 to |group|
        invariant |reply.items| <= reply.capacity
        invariant reply.items == old(reply.items) + EncodeCaps(group[..i])
      {
        assert group[..i + 1] == group[..i] + [group[i]];
        EncodeCapsSnoc(group[..i], group[i]);
        EncodeCapsPrefix(group[..i + 1], group);
        var ok := CapabilityMarshalling(reply, group[i]);
        if !ok {
          return HDF_FAILURE;
        }
      }
      assert group[..|group|] == group;
      return HDF_SUCCESS;
    }

    method HandleGetNumCmd(reply: HdfSBuf) returns (ret: int)
      requires 0 <= total <= INT32_MAX && |reply.items| <= reply.capacity
      modifies reply`items
      ensures inited ==> Wrote(old(reply.items), reply.items, reply.capacity, [I32(total)], ret == HDF_SUCCESS)
      ensures !inited ==> ret == HDF_FAILURE && reply.items == old(reply.items)
    {
      if !inited {
        return HDF_FAILURE;
      }
      var ok := reply.Write(I32(total));
      if !ok {
        return HDF_FAILURE;
      }
      return HDF_SUCCESS;
    }

    method HandleGetAllCapablityListCmd(reply: HdfSBuf) returns (ret: int)
      requires |reply.items| <= reply.capacity && AllValid(Served())
      modifies reply`items
      ensures ret == HDF_SUCCESS <==> inited && |old(reply.items)| + |EncodeCaps(Served())| <= reply.capacity
      ensures ret == HDF_SUCCESS ==> reply.items == old(reply.items) + EncodeCaps(Served())
    {
      if !inited {
        return HDF_FAILURE;
      }
      ret := AllCapabilityMarshalling(reply);
    }
  }

  lemma {:induction false} ConcatPrefix(gs: seq<seq<Capability>>, k: nat)
    requires k <= |gs|
    ensures Concat(gs[..k]) <= Concat(gs)
  {
    if k < |gs| {
      ConcatPrefix(gs[..|gs| - 1], k);
      assert gs[..|gs| - 1][..k] == gs[..k];
    } else {
      assert gs[..k] == gs;
    }
  }

  /** What serving one more group adds to the reply. */
  lemma ServeGroup(order: seq<seq<Capability>>, g: nat)
    requires g < |order| && AllValid(Concat(order))
    ensures AllValid(order[g])
    ensures EncodeCaps(Concat(order[..g + 1])) == EncodeCaps(Concat(order[..g])) + EncodeCaps(order[g])
    ensures |EncodeCaps(Concat(order[..g + 1]))| <= |EncodeCaps(Concat(order))|
  {
    hide EncodeCap;
    var done, all := Concat(order[..g]), Concat(order);
    assert order[..g + 1][..g] == order[..g];
    assert Concat(order[..g + 1]) == done + order[g];
    ConcatPrefix(order, g + 1);
    forall i | 0 <= i < |order[g]| ensures order[g][i].Valid() { assert order[g][i] == all[|done| + i]; }
    EncodeCapsConcat(done, order[g]);
    EncodeCapsPrefix(done + order[g], all);
  }

  lemma {:induction false} EncodeCapsPrefix(a: seq<Capability>, b: seq<Capability>)
    requires a <= b
    ensures |EncodeCaps(a)| <= |EncodeCaps(b)|
  {
    hide EncodeCap;
    if a == [] {
    } else {
      EncodeCapsPrefix(a[1..], b[1..]);
    }
  }

  lemma ChildCountIsSizes(config: Config, groups: Groups)
    requires forall i :: 0 <= i < GROUP_NUM ==> config[i] == Present(groups[i])
    ensures ChildCount(config) == Sizes(groups)
  {
    ChildCountUpTo(config, groups, GROUP_NUM);
    assert config[..GROUP_NUM] == config && groups[..GROUP_NUM] == groups;
  }

  lemma {:induction false} ChildCountUpTo(config: Config, groups: Groups, k: nat)
    requires k <= GROUP_NUM && forall i :: 0 <= i < GROUP_NUM ==> config[i] == Present(groups[i])
    ensures ChildCount(config[..k]) == Sizes(groups[..k])
  {
    if k == 0 {
    } else {
      ChildCountUpTo(config, groups, k - 1);
      assert config[..k][..k - 1] == config[..k - 1] && groups[..k][..k - 1] == groups[..k - 1];
    }
  }

  method CapabilityMarshalling(data: HdfSBuf, c: Capability) returns (ok: bool)
    requires c.Valid() && |data.items| <= data.capacity
    modifies data`items
    ensures Wrote(old(data.items), data.items, data.capacity, EncodeCap(c), ok)
  {
    hide U8s;
    hide I32s;
    hide EncodeScalars;
    ghost var e1, e2, e3 := [I32(c.role), I32(c.kind)], U8s(c.compName), I32s(c.supportProfiles);
    ok := data.Write(I32(c.role));
    if !ok { return; }
    ok := data.Write(I32(c.kind));
    if !ok { return; }
    ghost var mid := data.items;
    assert mid == old(data.items) + e1;
    ok := WriteUint8s(data, c.compName);
    WroteThen(old(data.items), mid, data.items, data.capacity, e1, e2, ok);
    if !ok { return; }
    mid := data.items;
    ok := WriteInt32s(data, c.supportProfiles);
    WroteThen(old(data.items), mid, data.items, data.capacity, e1 + e2, e3, ok);
    if !ok { return; }
    mid := data.items;
    ok := ScalarsMarshalling(data, c);
    WroteThen(old(data.items), mid, data.items, data.capacity, e1 + e2 + e3, EncodeScalars(c), ok);
  }

  method ScalarsMarshalling(data: HdfSBuf, c: Capability) returns (ok: bool)
    requires |data.items| <= data.capacity
    modifies data`items
    ensures Wrote(old(data.items), data.items, data.capacity, EncodeScalars(c), ok)
  {
    ok := data.Write(I32(c.maxInst));
    if !ok { return; }
    ok := data.Write(I8(if c.isSoftwareCodec then 1 else 0));
    if !ok { return; }
    ok := data.Write(I32(c.processModeMask));
    if !ok { return; }
    ok := data.Write(U32(c.capsMask));
    if !ok { return; }
    ok := data.Write(I32(c.minBitRate));
    if !ok { return; }
    ok := data.Write(I32(c.maxBitRate));
    if !ok { return; }
    ok := data.Write(Raw(c.port));
  }

  // ---------- the client ----------

  method ReadUint8s(data: HdfSBuf, n: nat) returns (ok: bool, a: seq<UInt8>)
    requires data.Valid()
    modifies data`pos
    ensures data.Valid() && ok == ReadU8s(n, old(data.Rest())).Parsed? && a == LeadingU8s(n, old(data.Rest()))
    ensures ok ==> Parsed(a, data.Rest()) == ReadU8s(n, old(data.Rest()))
  {
    ghost var start := data.Rest();
    a := [];
    for i := 0 to n
      invariant data.Valid() && i <= |start| && data.Rest() == start[i..] && |a| == i
      invariant forall k :: 0 <= k < i ==> start[k].U8? && a[k] == start[k].u8
    {
      var got, v := data.ReadUint8();
      if !got {
        LeadingU8sIs(n, start, a);
        return false, a;
      }
      a := a + [v];
    }
    LeadingU8sIs(n, start, a);
    assert a == ReadU8s(n, start).value;
    ok := true;
  }

  method ReadInt32s(data: HdfSBuf, n: nat) returns (ok: bool, a: seq<Int32>)
    requires data.Valid()
    modifies data`pos
    ensures data.Valid() && ok == ReadI32s(n, old(data.Rest())).Parsed? && a == LeadingI32s(n, old(data.Rest()))
    ensures ok ==> Parsed(a, data.Rest()) == ReadI32s(n, old(data.Rest()))
  {
    ghost var start := data.Rest();
    a := [];
    for i := 0 to n
      invariant data.Valid() && i <= |start| && data.Rest() == start[i..] && |a| == i
      invariant forall k :: 0 <= k < i ==> start[k].I32? && a[k] == start[k].i32
    {
      var got, v := data.ReadInt32();
      if !got {
        LeadingI32sIs(n, start, a);
        return false, a;
      }
      a := a + [v];
    }
    LeadingI32sIs(n, start, a);
    assert a == ReadI32s(n, start).value;
    ok := true;
  }

  /** The fields behind the arrays, overwritten one by one in the caller's record. */
  method ScalarsUnmarshalling(data: HdfSBuf, was: Capability) returns (ok: bool, c: Capability)
    requires data.Valid()
    modifies data`pos
    ensures data.Valid() && ok == ReadScalars(old(data.Rest())).Parsed? && c == OverwriteScalars(was, old(data.Rest()))
    ensures ok ==> data.Rest() == ReadScalars(old(data.Rest())).rest
  {
    hide OverwriteRange;
    hide ReadRange;
    c := was;
    var word, software, mask;
    ok, word := data.ReadInt32();
    if !ok { return; }
    c := c.(maxInst := word);
    ok, software := data.ReadInt8();
    if !ok { return; }
    c := c.(isSoftwareCodec := software != 0);
    ok, word := data.ReadInt32();
    if !ok { return; }
    c := c.(processModeMask := word);
    ok, mask := data.ReadUint32();
    if !ok { return; }
    c := c.(capsMask := mask);
    ok, c := RangeUnmarshalling(data, c);
  }

  method RangeUnmarshalling(data: HdfSBuf, was: Capability) returns (ok: bool, c: Capability)
    requires data.Valid()
    modifies data`pos
    ensures data.Valid() && ok == ReadRange(old(data.Rest())).Parsed? && c == OverwriteRange(was, old(data.Rest()))
    ensures ok ==> data.Rest() == ReadRange(old(data.Rest())).rest
  {
    c := was;
    var word, port;
    ok, word := data.ReadInt32();
    if !ok { return; }
    c := c.(minBitRate := word);
    ok, word := data.ReadInt32();
    if !ok { return; }
    c := c.(maxBitRate := word);
    ok, port := data.ReadUnpadBuffer(PORT_SIZE);
    if !ok { return; }
    c := c.(port := port);
  }

  /** Fills in a capability; `was` is what the caller's entry held before.  A read that fails leaves the
      fields read so far overwritten. */
  method CapabilityUnmarshalling(data: HdfSBuf, was: Capability) returns (ok: bool, c: Capability)
    requires data.Valid()
    modifies data`pos
    ensures data.Valid() && ok == ReadCap(old(data.Rest())).Parsed? && c == Overwrite(was, old(data.Rest()))
    ensures ok ==> Parsed(c, data.Rest()) == ReadCap(old(data.Rest()))
  {
    hide ReadU8s;
    hide ReadI32s;
    hide ReadScalars;
    hide OverwriteScalars;
    hide Overlay;
    c := was;
    if ReadCap(data.Rest()).Parsed? { OverwriteAll(was, data.Rest()); }
    var word, name, profiles;
    ok, word := data.ReadInt32();
    if !ok { return; }
    c := c.(role := word);
    ok, word := data.ReadInt32();
    if !ok { return; }
    c := c.(kind := word);
    ok, name := ReadUint8s(data, NAME_LENGTH);
    c := c.(compName := Overlay(name, c.compName, NAME_LENGTH));
    if !ok { return; }
    ok, profiles := ReadInt32s(data, PROFILE_NUM);
    c := c.(supportProfiles := Overlay(profiles, c.supportProfiles, PROFILE_NUM));
    if !ok { return; }
    ok, c := ScalarsUnmarshalling(data, c);
  }

  /** `ready` says that both message buffers were obtained and the token written. */
  method GetComponentNum(server: Catalogue, ready: bool, capacity: nat) returns (num: int)
    requires 0 <= server.total <= INT32_MAX
    ensures num == if ready && server.inited && 1 <= capacity then server.total else HDF_FAILURE
  {
    if !ready {
      return HDF_FAILURE;
    }
    var reply := new HdfSBuf(capacity);
    var ret := server.HandleGetNumCmd(reply);
    if ret != HDF_SUCCESS {
      return HDF_FAILURE;
    }
    var ok;
    ok, num := reply.ReadInt32();
    if !ok {
      return HDF_FAILURE;
    }
  }

  /** A client gets the first `count` entries in serving order if there are that many, and an error
      otherwise; asking for too many still fills in all there are.  Nothing else of the list changes. */
  method GetComponentCapabilityList(server: Catalogue, ready: bool, capacity: nat, capList: array<Capability>, count: int)
    returns (ret: int)
    requires AllValid(server.Served()) && count <= capList.Length
    modifies capList
    ensures ret == HDF_SUCCESS <==>
      && ready && server.inited && |EncodeCaps(server.Served())| <= capacity
      && 0 < count <= |server.Served()|
    ensures var works := ready && server.inited && |EncodeCaps(server.Served())| <= capacity;
      var got := if !works || count <= 0 then 0 else if count <= |server.Served()| then count else |server.Served()|;
      && capList[..got] == server.Served()[..got] && capList[got..] == old(capList[got..])
      && InRankOrder(server.groups, capList[..got])
  {
    hide EncodeCaps;
    hide ReadCaps;
    hide ReadSome;
    hide InServerOrder;
    hide InRankOrder;
    forall n: nat | n <= |server.Served()| ensures InRankOrder(server.groups, server.Served()[..n]) {
      PrefixInRankOrder(server.groups, server.Served()[..n]);
    }
    if !ready {
      return HDF_FAILURE;
    }
    var reply := new HdfSBuf(capacity);
    ret := server.HandleGetAllCapablityListCmd(reply);
    if ret != HDF_SUCCESS {
      return HDF_FAILURE;
    }
    if count <= 0 {
      return HDF_FAILURE;
    }
    assert reply.Rest() == EncodeCaps(server.Served());
    ReadCapsEncoded(count, server.Served());
    ReadSomeEncoded(count, server.Served());
    ret := FillList(reply, capList, count);
  }

  /** What the reading loop leaves in the list: the records that could be read, the next entry
      overwritten as far as possible if there were not enough, and the rest as it was. */
  ghost predicate Entries(was: seq<Capability>, now: seq<Capability>, got: seq<Capability>, rest: seq<Item>, count: nat) {
    && |now| == |was| && |got| <= count <= |was|
    && (forall k :: 0 <= k < |got| ==> now[k] == got[k])
    && (|got| < count ==> now[|got|] == Overwrite(was[|got|], rest))
    && (forall k :: |got| <= k < |was| && (k > |got| || |got| == count) ==> now[k] == was[k])
  }

  /** The reading loop, for any reply: it succeeds exactly when `count` entries parse, and says what the
      list holds either way. */
  method FillList(reply: HdfSBuf, capList: array<Capability>, count: nat) returns (ret: int)
    requires reply.Valid() && count <= capList.Length
    modifies reply`pos, capList
    ensures reply.Valid() && ret in {HDF_SUCCESS, HDF_FAILURE}
    ensures ret == HDF_SUCCESS <==> ReadCaps(count, old(reply.Rest())).Parsed?
    ensures ret == HDF_SUCCESS ==> reply.Rest() == ReadCaps(count, old(reply.Rest())).rest
    ensures var (got, rest) := ReadSome(count, old(reply.Rest())); Entries(old(capList[..]), capList[..], got, rest, count)
  {
    hide ReadCap;
    hide Overwrite;
    ghost var (all, end) := ReadSome(count, reply.Rest());
    ReadCapsIsSome(count, reply.Rest());
    hide ReadCaps;
    hide ReadSome;
    assert [] + all == all;
    for i := 0 to count
      invariant reply.Valid()
      invariant all == capList[..i] + ReadSome(count - i, reply.Rest()).0 && end == ReadSome(count - i, reply.Rest()).1
      invariant forall k :: i <= k < capList.Length ==> capList[k] == old(capList[k])
    {
      ghost var done := capList[..i];
      ReadSomeStep(count - i, reply.Rest());
      var ok, c := CapabilityUnmarshalling(reply, capList[i]);
      capList[i] := c;
      if !ok {
        assert all == done;
        return HDF_FAILURE;
      }
      assert capList[..i + 1] == done + [c];
      JoinedOne(done, c, ReadSome(count - i - 1, reply.Rest()).0);
    }
    ReadSomeStep(0, reply.Rest());
    assert all == capList[..count];
    return HDF_SUCCESS;
  }

  lemma JoinedOne(done: seq<Capability>, c: Capability, more: seq<Capability>)
    ensures done + ([c] + more) == done + [c] + more
  {
  }

  /** Asking for as many entries as the server announces returns the whole catalogue; an empty one
      cannot be asked for. */
  method FetchAll(server: Catalogue, capacity: nat, blank: Capability) returns (ret: int, caps: seq<Capability>)
    requires server.inited && server.Consistent() && server.total <= INT32_MAX
    requires 1 <= capacity && |EncodeCaps(server.Served())| <= capacity
    ensures ret == HDF_SUCCESS <==> server.Served() != []
    ensures caps == server.Served()
  {
    var num := GetComponentNum(server, true, capacity);
    var capList := new Capability[num](_ => blank);
    ret := GetComponentCapabilityList(server, true, capacity, capList, num);
    caps := capList[..];
    assert caps == capList[..num] && server.Served()[..num] == server.Served();
  }

  function Children(config: Config): Groups
    requires forall i :: 0 <= i < GROUP_NUM ==> config[i].Present?
  {
    var g := seq(GROUP_NUM, i requires 0 <= i < GROUP_NUM => config[i].children);
    assert |g| == GROUP_NUM;
    g
  }

  /** The children of all nodes, in serving order. */
  function Configured(config: Config): seq<Capability>
    requires forall i :: 0 <= i < GROUP_NUM ==> config[i].Present?
  {
    InServerOrder(Children(config))
  }

  /** From the configuration to the client: what a fresh catalogue loads is what a client fetches. */
  method LoadAndFetch(config: Config, junk: Capability, blank: Capability, capacity: nat)
    returns (ret: int, caps: seq<Capability>)
    requires forall i :: 0 <= i < GROUP_NUM ==> config[i].Present?
    requires ChildCount(config) <= INT32_MAX && AllValid(Configured(config))
    requires 1 <= capacity && |EncodeCaps(Configured(config))| <= capacity
    ensures ret == HDF_SUCCESS <==> Configured(config) != []
    ensures caps == Configured(config) && |caps| == ChildCount(config) && InRankOrder(Children(config), caps)
  {
    hide EncodeCaps;
    hide InServerOrder;
    var server := new Catalogue();
    ghost var at;
    ret, at := server.Load(config, seq(GROUP_NUM, _ => true), junk);
    assert server.groups == Children(config);
    PrefixInRankOrder(Children(config), Configured(config));
    hide InRankOrder;
    ret, caps := FetchAll(server, capacity, blank);
  }

  /** The total at a real input: loading one entry twice without clearing counts it twice. */
  method LoadTwice(entry: Capability, junk: Capability) returns (server: Catalogue)
    ensures server.inited && server.total == 2 && server.Served() == [entry]
  {
    var none := Present([]);
    var config: Config := [Present([entry]), none, none, none, none, none, none, none];
    ghost var at;
    var ret;
    OneChild(config, entry);
    server := new Catalogue();
    ret, at := server.Load(config, seq(GROUP_NUM, _ => true), junk);
    SizesOfEight(server.groups);
    CatalogueLength(server.groups);
    assert server.total == 1;
    ret, at := server.Load(config, seq(GROUP_NUM, _ => true), junk);
    assert forall i :: 0 <= i < GROUP_NUM ==> server.groups[i] == config[i].children;
  }

  lemma OneChild(config: Config, entry: Capability)
    requires config == [Present([entry]), Present([]), Present([]), Present([]), Present([]), Present([]), Present([]), Present([])]
    ensures ChildCount(config) == 1
  {
    var groups: Groups := [[entry], [], [], [], [], [], [], []];
    ChildCountIsSizes(config, groups);
    SizesOfEight(groups);
  }
}
