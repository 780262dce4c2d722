/** How the server picks a cipher suite from its own list, with its equal-preference groups, and the
    client's. */
module CipherChoice {
  import opened Basics

  datatype Cipher = Cipher(id: nat, minVersion: nat, maxVersion: nat, keyExchange: bv32, authentication: bv32)

  /** The negotiated version and what key exchange and authentication the server can do. */
  datatype Setting = Setting(version: nat, maskK: bv32, maskA: bv32)

  /** One of the algorithms in the mask is among those at hand. */
  predicate Meets(algorithms: bv32, mask: bv32) {
    algorithms & mask != 0
  }

  predicate Usable(c: Cipher, setting: Setting) {
    && c.minVersion <= setting.version <= c.maxVersion
    && Meets(c.keyExchange, setting.maskK) && Meets(c.authentication, setting.maskA)
  }

  /** Where `c` first stands in a list. */
  function IndexOf(list: seq<Cipher>, c: Cipher): (i: nat)
    requires c in list
    ensures i < |list| && list[i] == c && forall k | 0 <= k < i :: list[k] != c
  {
    if list[0] == c then 0 else 1 + IndexOf(list[1..], c)
  }

  /** A cipher both sides allow and the server can use. */
  predicate Candidate(c: Cipher, allow: seq<Cipher>, setting: Setting) {
    Usable(c, setting) && c in allow
  }

  /** The number of the equal-preference group of entry `i`: how many groups end before it. */
  function Group(inGroup: seq<bool>, i: nat): nat
    requires i <= |inGroup|
  {
    if i == 0 then 0 else Group(inGroup, i - 1) + if inGroup[i - 1] then 0 else 1
  }

  /** Entry `i` of the list of priorities is the right choice: it can be used, nothing in an earlier group
      can, and in its own group the other side likes nothing better. */
  ghost predicate Best(prio: seq<Cipher>, inGroup: seq<bool>, allow: seq<Cipher>, setting: Setting, i: nat)
    requires |inGroup| == |prio|
  {
    && i < |prio| && Candidate(prio[i], allow, setting)
    && forall k | 0 <= k < |prio| && Candidate(prio[k], allow, setting) ::
         Group(inGroup, i) < Group(inGroup, k) ||
         (Group(inGroup, i) == Group(inGroup, k) && IndexOf(allow, prio[i]) <= IndexOf(allow, prio[k]))
  }

  /** There is one right choice. */
  lemma BestIsUnique(prio: seq<Cipher>, inGroup: seq<bool>, allow: seq<Cipher>, setting: Setting, i: nat, j: nat)
    requires |inGroup| == |prio| && Best(prio, inGroup, allow, setting, i) && Best(prio, inGroup, allow, setting, j)
    ensures prio[i] == prio[j]
  {
    assert IndexOf(allow, prio[i]) == IndexOf(allow, prio[j]);
  }

  lemma {:induction false} GroupsGrow(inGroup: seq<bool>, i: nat, j: nat)
    requires i < j <= |inGroup|
    ensures Group(inGroup, i) + (if inGroup[i] then 0 else 1) <= Group(inGroup, j)
  {
    if i + 1 < j {
      GroupsGrow(inGroup, i, j - 1);
    }
  }

  /** Without groups the right choice is the first that both sides allow. */
  lemma UngroupedIsFirst(prio: seq<Cipher>, inGroup: seq<bool>, allow: seq<Cipher>, setting: Setting, i: nat)
    requires |inGroup| == |prio| && Best(prio, inGroup, allow, setting, i)
    requires forall k | 0 <= k < |inGroup| :: !inGroup[k]
    ensures forall k | 0 <= k < i :: !Candidate(prio[k], allow, setting)
  {
    forall k | 0 <= k < i ensures !Candidate(prio[k], allow, setting) {
      GroupsGrow(inGroup, k, i);
    }
  }

  method Find(list: seq<Cipher>, c: Cipher) returns (index: Option<nat>)
    ensures index == if c in list then Some(IndexOf(list, c)) else None
  {
    for i := 0 to |list|
      invariant c !in list[..i]
    {
      if list[i] == c {
        return Some(i);
      }
    }
    index := None;
  }

  /** A list of preferences ends with the end of a group. */
  predicate WellFormedGroups(inGroup: seq<bool>) {
    inGroup != [] ==> !inGroup[|inGroup| - 1]
  }

  /** What the loop knows at entry `i`: no earlier group has a candidate, and `groupMin` is the best rank
      in `allow` of the candidates met in the current group, or -1. */
  ghost predicate Tracks(prio: seq<Cipher>, inGroup: seq<bool>, allow: seq<Cipher>, setting: Setting, i: nat,
                         groupMin: int)
    requires i <= |prio| == |inGroup|
  {
    && (forall k | 0 <= k < i && Candidate(prio[k], allow, setting) ::
          Group(inGroup, k) == Group(inGroup, i) && 0 <= groupMin <= IndexOf(allow, prio[k]))
    && (groupMin != -1 ==>
          exists k :: 0 <= k < i && Candidate(prio[k], allow, setting) && IndexOf(allow, prio[k]) == groupMin)
  }

  lemma MeetsMeans(algorithms: bv32, mask: bv32)
    ensures Meets(algorithms, mask) <==> algorithms & mask != 0
  {
  }

  /** The server can use a cipher that exists in the version and whose key exchange and authentication are
      among those it can do. */
  lemma UsableMeans(c: Cipher, setting: Setting)
    ensures Usable(c, setting) <==> && setting.version >= c.minVersion && setting.version <= c.maxVersion
                                    && c.keyExchange & setting.maskK != 0 && c.authentication & setting.maskA != 0
  {
    hide Meets;
    MeetsMeans(c.keyExchange, setting.maskK);
    MeetsMeans(c.authentication, setting.maskA);
  }

  /** Chooses a cipher. With the server's preference it is the client's favourite of the first group that
      has a candidate; with the client's preference it is the client's first that the server allows. */
  method ChooseCipher(serverPreference: bool, clientList: seq<Cipher>, serverList: seq<Cipher>, inGroupFlags: seq<bool>,
                      setting: Setting) returns (choice: Option<Cipher>)
    requires |inGroupFlags| == |serverList| && WellFormedGroups(inGroupFlags)
    ensures choice.None? <==> forall c | c in serverList && c in clientList :: !Usable(c, setting)
    ensures choice.Some? && serverPreference ==>
              exists i: nat :: Best(serverList, inGroupFlags, clientList, setting, i) && serverList[i] == choice.value
    ensures choice.Some? && !serverPreference ==>
              exists i: nat :: && i < |clientList| && clientList[i] == choice.value
                          && Candidate(clientList[i], serverList, setting)
                          && forall k | 0 <= k < i :: !Candidate(clientList[k], serverList, setting)
  {
    hide Usable, Group, Tracks;
    var prio, allow := serverList, clientList;
    ghost var inGroup := inGroupFlags;
    if !serverPreference {
      prio, allow := clientList, serverList;
      inGroup := seq(|clientList|, _ => false);
    }
    var groupMin := -1;
    TracksFromStart(prio, inGroup, allow, setting);
    for i := 0 to |prio|
      invariant Tracks(prio, inGroup, allow, setting, i, groupMin)
      invariant i == 0 || !inGroup[i - 1] ==> groupMin == -1
      invariant groupMin >= -1 && (!serverPreference ==> groupMin == -1)
    {
      var c := prio[i];
      if Usable(c, setting) {
        var found := Find(allow, c);
        if found.Some? {
          if serverPreference && inGroupFlags[i] {
            CandidateTracks(prio, inGroup, allow, setting, i, groupMin);
            if groupMin == -1 || groupMin > found.value {
              groupMin := found.value;
            }
          } else {
            var index := found.value;
            if groupMin != -1 && groupMin < index {
              index := groupMin;
            }
            ghost var best := AnswerIsBest(prio, inGroup, allow, setting, i, groupMin, index);
            if !serverPreference {
              UngroupedIsFirst(prio, inGroup, allow, setting, best);
            }
            return Some(allow[index]);
          }
        }
      }
      if serverPreference && !inGroupFlags[i] && groupMin != -1 {
        ghost var best := LeavingGroup(prio, inGroup, allow, setting, i, groupMin);
        return Some(allow[groupMin]);
      }
      if !Candidate(c, allow, setting) {
        OtherTracks(prio, inGroup, allow, setting, i, groupMin);
      }
    }
    TrackedAll(prio, inGroup, allow, setting, groupMin);
    choice := None;
  }

  /** The candidate at the end of a group, or one before it that ranks higher, is the right choice. */
  lemma AnswerIsBest(prio: seq<Cipher>, inGroup: seq<bool>, allow: seq<Cipher>, setting: Setting, i: nat, groupMin: int,
                     index: nat)
    returns (best: nat)
    requires |inGroup| == |prio| && i < |prio| && !inGroup[i]
    requires Tracks(prio, inGroup, allow, setting, i, groupMin) && Candidate(prio[i], allow, setting)
    requires var rank := IndexOf(allow, prio[i]); index == if groupMin != -1 && groupMin < rank then groupMin else rank
    ensures Best(prio, inGroup, allow, setting, best) && index < |allow| && prio[best] == allow[index]
  {
    hide Usable;
    best := i;
    if groupMin != -1 && groupMin < IndexOf(allow, prio[i]) {
      best :| 0 <= best < i && Candidate(prio[best], allow, setting) && IndexOf(allow, prio[best]) == groupMin;
    }
    forall k | i < k < |prio| ensures Group(inGroup, i) < Group(inGroup, k) {
      GroupsGrow(inGroup, i, k);
    }
  }

  /** At the end of a group with a candidate, its best candidate is the right choice. */
  lemma LeavingGroup(prio: seq<Cipher>, inGroup: seq<bool>, allow: seq<Cipher>, setting: Setting, i: nat, groupMin: int)
    returns (best: nat)
    requires |inGroup| == |prio| && i < |prio| && !inGroup[i] && groupMin != -1
    requires Tracks(prio, inGroup, allow, setting, i, groupMin) && !Candidate(prio[i], allow, setting)
    ensures Best(prio, inGroup, allow, setting, best) && 0 <= groupMin < |allow| && prio[best] == allow[groupMin]
  {
    hide Usable;
    best :| 0 <= best < i && Candidate(prio[best], allow, setting) && IndexOf(allow, prio[best]) == groupMin;
    forall k | i < k < |prio| ensures Group(inGroup, i) < Group(inGroup, k) {
      GroupsGrow(inGroup, i, k);
    }
  }

  lemma TracksFromStart(prio: seq<Cipher>, inGroup: seq<bool>, allow: seq<Cipher>, setting: Setting)
    requires |inGroup| == |prio|
    ensures Tracks(prio, inGroup, allow, setting, 0, -1)
  {
  }

  /** A candidate inside a group counts towards the group's best. */
  lemma CandidateTracks(prio: seq<Cipher>, inGroup: seq<bool>, allow: seq<Cipher>, setting: Setting, i: nat,
                        groupMin: int)
    requires |inGroup| == |prio| && i < |prio| && inGroup[i] && groupMin >= -1
    requires Tracks(prio, inGroup, allow, setting, i, groupMin) && Candidate(prio[i], allow, setting)
    ensures var rank := IndexOf(allow, prio[i]);
            Tracks(prio, inGroup, allow, setting, i + 1, if groupMin == -1 || groupMin > rank then rank else groupMin)
  {
    hide Usable, IndexOf;
  }

  /** An entry that cannot be used changes nothing, unless the group ends with it. */
  lemma OtherTracks(prio: seq<Cipher>, inGroup: seq<bool>, allow: seq<Cipher>, setting: Setting, i: nat, groupMin: int)
    requires |inGroup| == |prio| && i < |prio| && (inGroup[i] || groupMin == -1)
    requires Tracks(prio, inGroup, allow, setting, i, groupMin) && !Candidate(prio[i], allow, setting)
    ensures Tracks(prio, inGroup, allow, setting, i + 1, groupMin)
  {
    hide Usable, IndexOf;
  }

  lemma TrackedAll(prio: seq<Cipher>, inGroup: seq<bool>, allow: seq<Cipher>, setting: Setting, groupMin: int)
    requires |inGroup| == |prio| && Tracks(prio, inGroup, allow, setting, |prio|, groupMin) && groupMin == -1
    ensures forall k | 0 <= k < |prio| :: !Candidate(prio[k], allow, setting)
  {
    hide Usable;
  }
}
