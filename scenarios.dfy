/**
 * The query of api/routers/customers.py run on its own roster: the example
 * searches and sorts that a client of `/customers` sees, derived from the
 * general lemmas of module Customers.
 */
module Scenarios {
  import opened Wrappers
  import Text
  import opened Customers

  /** The roster is listed in strictly decreasing relevance, which fixes the order of any filtered result. */
  lemma FixtureByRelevance()
    ensures StrictlySorted(Relevance, true, CUSTOMERS)
  {
    var rel := [98, 95, 92, 90, 88, 85, 83, 80, 78, 75, 72, 70, 68, 65, 62, 60, 58, 55, 52, 50];
    assert forall i :: 0 <= i < 20 ==> CUSTOMERS[i].relevance == rel[i];
    ChainStrictlySorted(Relevance, true, CUSTOMERS);
  }

  /** The roster cut into consecutive slices, so that facts about its records can be gathered a few at a time. */
  lemma FixtureSlices()
    ensures forall c :: c in CUSTOMERS <==>
      c in [C1, C2] || c == C3 || c in [C4, C5, C6] || c in [C7, C8, C9] || c in [C10, C11, C12]
      || c in [C13, C14, C15] || c in [C16, C17, C18] || c in [C19, C20]
  {
    assert CUSTOMERS == [C1, C2] + [C3] + [C4, C5, C6] + [C7, C8, C9] + [C10, C11, C12]
      + [C13, C14, C15] + [C16, C17, C18] + [C19, C20];
  }

  // ---------------------------------------------------------------------
  // Searching for "lee"
  // ---------------------------------------------------------------------

  /** A name none of whose positions spells "lee", ignoring ASCII case, does not contain "lee" once lowercased. */
  lemma LacksLee(name: string)
    requires forall i :: 0 <= i && i + 2 < |name| ==>
      !(Text.LowerChar(name[i]) == 'l' && Text.LowerChar(name[i + 1]) == 'e' && Text.LowerChar(name[i + 2]) == 'e')
    ensures !Text.Contains(Text.Lower(name), "lee")
  {
    forall i: nat | i + 3 <= |name| ensures !Text.OccursAt(Text.Lower(name), "lee", i) {
      Text.OccursInLower(name, "lee", i);
      if Text.LowerChar(name[i]) != 'l' {
        assert Text.LowerChar(name[i + 0]) != "lee"[0];
      } else if Text.LowerChar(name[i + 1]) != 'e' {
        assert Text.LowerChar(name[i + 1]) != "lee"[1];
      } else {
        assert Text.LowerChar(name[i + 2]) != "lee"[2];
      }
    }
    Text.ContainsIffOccurs(Text.Lower(name), "lee");
  }

  // The twenty names are checked a few at a time: every name's characters
  // unfolded in one proof is more than the solver can take at once.

  lemma NoLeeIn1To2(c: Customer)
    requires c == C1 || c == C2
    ensures !Text.Contains(Text.Lower(c.name), "lee")
  {
    if c == C1 {
      LacksLee(C1.name);
    } else {
      LacksLee(C2.name);
    }
  }

  lemma NoLeeIn4To6(c: Customer)
    requires c == C4 || c == C5 || c == C6
    ensures !Text.Contains(Text.Lower(c.name), "lee")
  {
    if c == C4 {
      LacksLee(C4.name);
    } else if c == C5 {
      LacksLee(C5.name);
    } else {
      LacksLee(C6.name);
    }
  }

  lemma NoLeeIn7To9(c: Customer)
    requires c == C7 || c == C8 || c == C9
    ensures !Text.Contains(Text.Lower(c.name), "lee")
  {
    if c == C7 {
      LacksLee(C7.name);
    } else if c == C8 {
      LacksLee(C8.name);
    } else {
      LacksLee(C9.name);
    }
  }

  lemma NoLeeIn10To12(c: Customer)
    requires c == C10 || c == C11 || c == C12
    ensures !Text.Contains(Text.Lower(c.name), "lee")
  {
    if c == C10 {
      LacksLee(C10.name);
    } else if c == C11 {
      LacksLee(C11.name);
    } else {
      LacksLee(C12.name);
    }
  }

  lemma NoLeeIn13To15(c: Customer)
    requires c == C13 || c == C14 || c == C15
    ensures !Text.Contains(Text.Lower(c.name), "lee")
  {
    if c == C13 {
      LacksLee(C13.name);
    } else if c == C14 {
      LacksLee(C14.name);
    } else {
      LacksLee(C15.name);
    }
  }

  lemma NoLeeIn16To18(c: Customer)
    requires c == C16 || c == C17 || c == C18
    ensures !Text.Contains(Text.Lower(c.name), "lee")
  {
    if c == C16 {
      LacksLee(C16.name);
    } else if c == C17 {
      LacksLee(C17.name);
    } else {
      LacksLee(C18.name);
    }
  }

  lemma NoLeeIn19To20(c: Customer)
    requires c == C19 || c == C20
    ensures !Text.Contains(Text.Lower(c.name), "lee")
  {
    if c == C19 {
      LacksLee(C19.name);
    } else {
      LacksLee(C20.name);
    }
  }

  lemma CarolLeeHasLee()
    ensures Text.Contains(Text.Lower(C3.name), "lee")
  {
    Text.LowerContains(C3.name, "lee", 6);
  }

  /** Of the twenty names, only Carol Lee's can contain "lee" once lowercased. */
  lemma LeeOnlyInCarolLee(c: Customer)
    requires c in CUSTOMERS
    ensures Text.Contains(Text.Lower(c.name), "lee") ==> c == C3
  {
    FixtureSlices();
    if c in [C1, C2] {
      NoLeeIn1To2(c);
    } else if c == C3 {
    } else if c in [C4, C5, C6] {
      NoLeeIn4To6(c);
    } else if c in [C7, C8, C9] {
      NoLeeIn7To9(c);
    } else if c in [C10, C11, C12] {
      NoLeeIn10To12(c);
    } else if c in [C13, C14, C15] {
      NoLeeIn13To15(c);
    } else if c in [C16, C17, C18] {
      NoLeeIn16To18(c);
    } else if c in [C19, C20] {
      NoLeeIn19To20(c);
    }
  }

  /** With "lee" as the only argument, a record matches exactly when its lowercased name contains "lee". */
  lemma LeeQueryMatches(p: Params, c: Customer)
    requires p == Params(search := Some("lee"))
    ensures Matches(p, c) <==> Text.Contains(Text.Lower(c.name), "lee")
  {
    assert Text.Lower("lee") == "lee";
  }

  lemma LeeQuery(p: Params)
    requires p == Params(search := Some("lee"))
    ensures FilterCustomers(p) == Success([C3])
  {
    UnsortedResult(p);
    SelectMembers(p, CUSTOMERS);
    assert C3 in CUSTOMERS;
    forall c | c in CUSTOMERS
      ensures c in Select(p, CUSTOMERS) <==> c == C3
    {
      LeeQueryMatches(p, c);
      LeeOnlyInCarolLee(c);
      if c == C3 {
        CarolLeeHasLee();
      }
    }
    FixtureByRelevance();
    SelectStrictlySorted(p, Relevance, true, CUSTOMERS);
    StrictlySortedUnique(Relevance, true, Select(p, CUSTOMERS), [C3]);
  }

  /** Searching for "lee" returns Carol Lee alone. */
  lemma SearchLee()
    ensures FilterCustomers(Params(search := Some("lee"))) == Success([C3])
  {
    LeeQuery(Params(search := Some("lee")));
  }

  // ---------------------------------------------------------------------
  // High-risk customers by ascending aum
  // ---------------------------------------------------------------------

  const HIGH_RISK: seq<Customer> := [C3, C6, C9, C11, C14, C17, C20]

  lemma HighRiskQueryMatches(p: Params, c: Customer)
    requires p.riskProfile == Some("high") && p.gender == None && p.search == None
    requires p.aumMin == None && p.aumMax == None && p.ageMin == None && p.ageMax == None
    ensures Matches(p, c) <==> c.riskProfile == "high"
  {
  }

  /** The high-risk records are exactly seven, listed here in roster order. */
  lemma HighRiskMembers(c: Customer)
    ensures c in CUSTOMERS && c.riskProfile == "high" <==> c in HIGH_RISK
  {
    FixtureSlices();
    if c in [C1, C2] {
    } else if c == C3 {
    } else if c in [C4, C5, C6] {
    } else if c in [C7, C8, C9] {
    } else if c in [C10, C11, C12] {
    } else if c in [C13, C14, C15] {
    } else if c in [C16, C17, C18] {
    } else if c in [C19, C20] {
    } else {
      assert c !in HIGH_RISK;
    }
  }

  lemma HighRiskByRelevance()
    ensures StrictlySorted(Relevance, true, HIGH_RISK)
  {
    ChainStrictlySorted(Relevance, true, HIGH_RISK);
  }

  lemma HighRiskSelected(p: Params)
    requires p.riskProfile == Some("high") && p.gender == None && p.search == None
    requires p.aumMin == None && p.aumMax == None && p.ageMin == None && p.ageMax == None
    ensures Select(p, CUSTOMERS) == HIGH_RISK
  {
    SelectMembers(p, CUSTOMERS);
    forall c ensures c in Select(p, CUSTOMERS) <==> c in HIGH_RISK {
      HighRiskQueryMatches(p, c);
      HighRiskMembers(c);
    }
    FixtureByRelevance();
    SelectStrictlySorted(p, Relevance, true, CUSTOMERS);
    HighRiskByRelevance();
    StrictlySortedUnique(Relevance, true, Select(p, CUSTOMERS), HIGH_RISK);
  }

  const HIGH_RISK_BY_AUM: seq<Customer> := [C17, C3, C14, C6, C9, C20, C11]

  /** Listed by strictly increasing aum, from 75000 up to 130000. */
  lemma HighRiskByAumStrictly()
    ensures StrictlySorted(Aum, false, HIGH_RISK_BY_AUM)
  {
    ChainStrictlySorted(Aum, false, HIGH_RISK_BY_AUM);
  }

  lemma HighRiskReordered()
    ensures multiset(HIGH_RISK) == multiset(HIGH_RISK_BY_AUM)
  {
  }

  /**
   * The sorted high-risk list is ordered and a permutation of its input; as no
   * two high-risk records share an aum, that fixes it.
   */
  lemma HighRiskSortedByAum()
    ensures SortBy(Aum, false, HIGH_RISK) == HIGH_RISK_BY_AUM
  {
    SortBySorted(Aum, false, HIGH_RISK);
    SortByPermutes(Aum, false, HIGH_RISK);
    HighRiskReordered();
    HighRiskByAumStrictly();
    SortedUnique(Aum, false, SortBy(Aum, false, HIGH_RISK), HIGH_RISK_BY_AUM);
  }

  lemma HighRiskQuery(p: Params)
    requires p == Params(riskProfile := Some("high"), sortBy := Some("aum"), sortDir := Some("asc"))
    ensures FilterCustomers(p) == Success([C17, C3, C14, C6, C9, C20, C11])
  {
    HighRiskSelected(p);
    FilteredIsSelect(p, CUSTOMERS);
    assert FieldNamed("aum") == Some(Aum);
    HighRiskSortedByAum();
  }

  /** The high-risk customers sorted by ascending aum: Quinn, Carol, Nina, Frank, Ivy, Tommy, Kevin. */
  lemma HighRiskByAumAscending()
    ensures FilterCustomers(Params(riskProfile := Some("high"), sortBy := Some("aum"), sortDir := Some("asc")))
         == Success([C17, C3, C14, C6, C9, C20, C11])
  {
    HighRiskQuery(Params(riskProfile := Some("high"), sortBy := Some("aum"), sortDir := Some("asc")));
  }

  // ---------------------------------------------------------------------
  // Ids sort as strings
  // ---------------------------------------------------------------------

  /** As strings, "10" is below "2": Jackie Lin (id 10) is ahead of Bob Johnson (id 2) in an ascending sort by id. */
  lemma TenBeforeTwo()
    ensures Ahead(Id, false, C10, C2) && !InOrder(Id, false, C2, C10) && C10 != C2
  {
    assert C10.id == "10" && C2.id == "2";
    assert Text.Less("10", "2");
    assert !Text.Less("2", "10");
  }

  /** Ids are compared as strings, so in an ascending sort by id "10" comes before "2". */
  lemma IdsCompareAsStrings(p: Params, r: seq<Customer>, i: int, j: int)
    requires FilterCustomers(p) == Success(r)
    requires p.sortBy == Some("id") && p.sortDir != Some("desc")
    requires 0 <= i < |r| && 0 <= j < |r| && r[i] == C10 && r[j] == C2
    ensures i < j
  {
    assert FieldNamed("id") == Some(Id);
    SortedResult(p, r);
    TenBeforeTwo();
  }

  // ---------------------------------------------------------------------
  // A sort of nothing
  // ---------------------------------------------------------------------

  lemma FixtureAumBelowMillion()
    ensures forall c :: c in CUSTOMERS ==> c.aum < 1000000
  {
  }

  lemma NoMillionaire(p: Params)
    requires p == Params(sortBy := Some("aum"), aumMin := Some(1000000))
    ensures FilterCustomers(p) == Failure(IndexError)
    ensures FilterDataGuarded(CUSTOMERS, p) == []
  {
    FixtureAumBelowMillion();
    NothingMatches(p);
    GuardedAgrees(CUSTOMERS, p);
  }

  /**
   * Asking for a sort when no record has an aum of a million fails on `data[0]`
   * as written, while the guarded query returns the empty list.
   */
  lemma SortOnEmptyFails()
    ensures FilterCustomers(Params(sortBy := Some("aum"), aumMin := Some(1000000))) == Failure(IndexError)
    ensures FilterDataGuarded(CUSTOMERS, Params(sortBy := Some("aum"), aumMin := Some(1000000))) == []
  {
    NoMillionaire(Params(sortBy := Some("aum"), aumMin := Some(1000000)));
  }
}
