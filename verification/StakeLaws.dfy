/** What selecting by the least hash comes to: which block wins a round, by its own hash and its kind, and how long
    the rounds are. */
module StakeLaws {
  import opened StakeModifier

  /** A block takes part if it is not chosen yet and not timed after the stop; the first of those left always does. */
  lemma EligibleIff(cs: seq<Block>, chosen: set<nat>, stop: int, k: nat)
    ensures Eligible(cs, chosen, stop, k) <==>
              && k < |cs| && cs[k].hash !in chosen
              && (cs[k].time <= stop || forall j | 0 <= j < k :: cs[j].hash in chosen)
  {
  }

  /** From the upgrade height of the first candidate on: a proof-of-work block wins only if its own hash value is at
      most the 2^32nd part of that of every proof-of-stake block, and a proof-of-stake block only if that part of
      its value is at most the value of every proof-of-work block. Within a kind the least value wins, the earliest
      block among equals. */
  lemma StakeIsFavoured(e: Env, cs: seq<Block>, chosen: set<nat>, stop: int, prev: nat, m: nat, k: nat)
    requires Best(e, cs, chosen, stop, prev, m) && Eligible(cs, chosen, stop, k) && cs[0].height >= e.upgradeHeight
    ensures var x, y := e.hash(cs[m].hash, prev), e.hash(cs[k].hash, prev);
            && (!cs[m].proofOfStake && cs[k].proofOfStake ==> x <= y / 0x1_0000_0000 && (k < m ==> x < y / 0x1_0000_0000))
            && (cs[m].proofOfStake && !cs[k].proofOfStake ==> x / 0x1_0000_0000 <= y && (k < m ==> x / 0x1_0000_0000 < y))
            && (!cs[m].proofOfStake && !cs[k].proofOfStake ==> x <= y && (k < m ==> x < y))
            && (cs[m].proofOfStake && cs[k].proofOfStake ==>
                  x / 0x1_0000_0000 <= y / 0x1_0000_0000 && (k < m ==> x / 0x1_0000_0000 < y / 0x1_0000_0000))
  {
    ValueOf(e, cs[m], prev);
    ValueOf(e, cs[k], prev);
  }

  lemma ValueOf(e: Env, b: Block, prev: nat)
    ensures SelectionHash(e, b, true, prev) == if b.proofOfStake then e.hash(b.hash, prev) / 0x1_0000_0000 else e.hash(b.hash, prev)
    ensures SelectionHash(e, b, false, prev) == if b.proofOfStake then e.hash(0, prev) / 0x1_0000_0000 else e.hash(b.hash, prev)
  {
  }

  /** Before, all proof-of-stake blocks have the same value, so that of them only the earliest that takes part can
      win, and it does unless a proof-of-work block has less. */
  lemma EarliestStakeWins(e: Env, cs: seq<Block>, chosen: set<nat>, stop: int, prev: nat, m: nat, k: nat)
    requires Best(e, cs, chosen, stop, prev, m) && Eligible(cs, chosen, stop, k) && cs[0].height < e.upgradeHeight
    ensures cs[m].proofOfStake && cs[k].proofOfStake ==> m <= k
    ensures cs[m].proofOfStake && !cs[k].proofOfStake ==>
              e.hash(0, prev) / 0x1_0000_0000 <= e.hash(cs[k].hash, prev) && (k < m ==> e.hash(0, prev) / 0x1_0000_0000 < e.hash(cs[k].hash, prev))
    ensures !cs[m].proofOfStake && cs[k].proofOfStake ==>
              e.hash(cs[m].hash, prev) <= e.hash(0, prev) / 0x1_0000_0000 && (k < m ==> e.hash(cs[m].hash, prev) < e.hash(0, prev) / 0x1_0000_0000)
    ensures !cs[m].proofOfStake && !cs[k].proofOfStake ==>
              e.hash(cs[m].hash, prev) <= e.hash(cs[k].hash, prev) && (k < m ==> e.hash(cs[m].hash, prev) < e.hash(cs[k].hash, prev))
  {
    ValueOf(e, cs[m], prev);
    ValueOf(e, cs[k], prev);
  }

  /** In round r the best block left by the rounds before wins, up to the end of section r. */
  lemma RoundIs(e: Env, cs: seq<Block>, start: int, prev: nat, picked: seq<nat>, r: nat, stop: int)
    requires Rounds(e, cs, start, prev, picked) && r < |picked|
    requires stop == start + Sections(r) + Section(r)
    ensures (forall i | 0 <= i < |picked| :: picked[i] < |cs|) && |picked| <= 64
    ensures Best(e, cs, set i | 0 <= i < r :: cs[picked[i]].hash, stop, prev, picked[r])
  {
    hide Best, Sections, Section;
    SectionNext(r);
    var earlier := picked[..r];
    assert HashesOf(cs, earlier) == set i | 0 <= i < r :: cs[picked[i]].hash by {
      forall h ensures h in HashesOf(cs, earlier) <==> h in set i | 0 <= i < r :: cs[picked[i]].hash {
        if i :| 0 <= i < r && cs[picked[i]].hash == h { assert earlier[i] == picked[i]; }
      }
    }
  }

  /** Candidates are ordered by time and, at the same time, by hash; none is added or lost. */
  lemma SortedIs(q: seq<(int, nat)>)
    ensures multiset(Sort(q)) == multiset(q)
    ensures forall i, j | 0 <= i < j < |Sort(q)| :: Sort(q)[i].0 < Sort(q)[j].0 || (Sort(q)[i].0 == Sort(q)[j].0 && Sort(q)[i].1 <= Sort(q)[j].1)
  {
    hide Sort;
    SortIs(q);
    forall i, j | 0 <= i < j < |Sort(q)|
      ensures Sort(q)[i].0 < Sort(q)[j].0 || (Sort(q)[i].0 == Sort(q)[j].0 && Sort(q)[i].1 <= Sort(q)[j].1)
    {
      assert Before(Sort(q)[i], Sort(q)[j]);
    }
  }

  // ---------- Times ----------

  lemma SectionsFrom0()
    ensures Section(0) == 20 && Section(1) == 20 && Section(2) == 20 && Section(3) == 20 && Section(4) == 20 && Section(5) == 21 && Section(6) == 21 && Section(7) == 21
    ensures Section(8) == 21 && Section(9) == 22 && Section(10) == 22 && Section(11) == 22 && Section(12) == 22 && Section(13) == 23 && Section(14) == 23 && Section(15) == 23
  {
  }

  lemma SectionsFrom16()
    ensures Section(16) == 24 && Section(17) == 24 && Section(18) == 24 && Section(19) == 25 && Section(20) == 25 && Section(21) == 25 && Section(22) == 26 && Section(23) == 26
    ensures Section(24) == 26 && Section(25) == 27 && Section(26) == 27 && Section(27) == 28 && Section(28) == 28 && Section(29) == 28 && Section(30) == 29 && Section(31) == 29
  {
  }

  lemma SectionsFrom32()
    ensures Section(32) == 30 && Section(33) == 30 && Section(34) == 31 && Section(35) == 31 && Section(36) == 32 && Section(37) == 32 && Section(38) == 33 && Section(39) == 34
    ensures Section(40) == 34 && Section(41) == 35 && Section(42) == 36 && Section(43) == 36 && Section(44) == 37 && Section(45) == 38 && Section(46) == 38 && Section(47) == 39
  {
  }

  lemma SectionsFrom48()
    ensures Section(48) == 40 && Section(49) == 41 && Section(50) == 42 && Section(51) == 43 && Section(52) == 44 && Section(53) == 45 && Section(54) == 46 && Section(55) == 47
    ensures Section(56) == 49 && Section(57) == 50 && Section(58) == 51 && Section(59) == 53 && Section(60) == 54 && Section(61) == 56 && Section(62) == 58 && Section(63) == 60
  {
  }

  lemma EightSections(n: nat)
    requires n + 8 <= ROUNDS
    ensures Sections(n + 8) == Sections(n) + Section(n) + Section(n + 1) + Section(n + 2) + Section(n + 3)
                                 + Section(n + 4) + Section(n + 5) + Section(n + 6) + Section(n + 7)
  {
    hide Section;
    SectionNext(n);
    SectionNext(n + 1);
    SectionNext(n + 2);
    SectionNext(n + 3);
    SectionNext(n + 4);
    SectionNext(n + 5);
    SectionNext(n + 6);
    SectionNext(n + 7);
  }

  lemma FirstHalf()
    ensures Sections(32) == 762
  {
    hide Sections, Section;
    SectionsFrom0();
    SectionsFrom16();
    EightSections(0);
    EightSections(8);
    EightSections(16);
    EightSections(24);
    NoSections();
  }

  lemma NoSections()
    ensures Sections(0) == 0
  {
  }

  /** The 64 sections come to 2087 seconds, from 20 to 60 each. */
  lemma SelectionIntervalIs()
    ensures Sections(64) == 2087 && Section(0) == 20 && Section(63) == 60
  {
    hide Sections, Section;
    FirstHalf();
    SectionsFrom0();
    SectionsFrom32();
    SectionsFrom48();
    EightSections(32);
    EightSections(40);
    EightSections(48);
    EightSections(56);
  }

  /** The interval ends at the last whole minute before the last block's time. */
  lemma IntervalEnds(chain: seq<Block>)
    requires chain != []
    ensures var end := IntervalStart(chain) + 2087;
            end % 60 == 0 && end <= chain[|chain| - 1].time < end + 60
  {
    hide Sections;
    SelectionIntervalIs();
  }

  /** A modifier is kept until a minute begins between its time and that of the last block. */
  lemma KeptWithinTheMinute(s: int, t: int)
    ensures Slot(s) >= Slot(t) <==> !exists m: int :: s < 60 * m <= t
  {
    if s < 60 * Slot(t) <= t {}
  }

  /** The candidates are the blocks back from the last one, up to the first that is older than the start. */
  lemma CandidatesAre(chain: seq<Block>, start: int)
    ensures var q := Candidates(chain, start);
            && (forall i | 0 <= i < |q| :: q[i].0 >= start && q[i] == (chain[|chain| - 1 - i].time, chain[|chain| - 1 - i].hash))
            && (|q| == |chain| || chain[|chain| - 1 - |q|].time < start)
  {
    hide Candidates;
    forall i | 0 <= i < |Candidates(chain, start)|
      ensures var q := Candidates(chain, start);
              q[i].0 >= start && q[i] == (chain[|chain| - 1 - i].time, chain[|chain| - 1 - i].hash)
    {
      CandidateAt(chain, start, i);
    }
    CandidatesEnd(chain, start);
  }

  lemma {:induction false} CandidatesEnd(chain: seq<Block>, start: int)
    ensures var n := |Candidates(chain, start)|; n == |chain| || chain[|chain| - 1 - n].time < start
  {
    if chain != [] && chain[|chain| - 1].time >= start { CandidatesEnd(chain[..|chain| - 1], start); }
  }
}
