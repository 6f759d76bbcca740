// A reference reading of the rule list, one rule after another, and its agreement with the declarative one that the
// evaluators are proved against; and what each criterion of a rule asks for, alone and together.
module RuleWalk {
  import opened Wrappers
  import opened Text
  import opened Net
  import opened Netmask
  import opened Rules
  import opened Evaluate

  datatype Walked = Drop | Send(name: Option<string>, routers: Option<seq<u32>>, mask: Option<Mask>)

  /** The mask a rule asks for: its own; else, of a first subnet that is an IPv4 one, that subnet's. */
  predicate Wants(r: Rule, m: Mask) {
    if Usable(r.action.netmask) then m == r.action.netmask
    else
      && r.criteria.subnets != [] && r.criteria.subnets[0].Cidr4? && r.criteria.subnets[0].ones4 > 0
      && m == Mask4(WidthMask(r.criteria.subnets[0].ones4))
  }

  lemma WantsEffective(r: Rule, m: Mask)
    ensures Wants(r, m) <==> m == EffectiveMask(r) && Usable(m)
  {
    if r.criteria.subnets != [] && r.criteria.subnets[0].Cidr4? {
      WidthMaskIsValid(r.criteria.subnets[0].ones4);
    }
    hide CheckValidNetmask, WidthMask;
  }

  /** The rules in order: skip one that does not match, drop at one that ignores, else set and go on or stop. */
  ghost function Walk(rules: seq<Rule>, domain: string, ii: IfaceInfo, sent: Walked): Walked
    requires sent.Send?
    decreases |rules|
  {
    if rules == [] then sent
    else
      var r := rules[0];
      if !Matches(r.criteria, ii) then Walk(rules[1..], domain, ii, sent)
      else if r.action.ignore then Drop
      else if r.action.cont then Walk(rules[1..], domain, ii, Applied(r, domain, ii, sent))
      else Applied(r, domain, ii, sent)
  }

  /** What one matching rule changes. */
  ghost function Applied(r: Rule, domain: string, ii: IfaceInfo, sent: Walked): (after: Walked)
    requires sent.Send?
    ensures after.Send?
  {
    var hn := TrimSpace(r.action.hostname);
    Send(
      if hn != "" then Some(NameFor(hn, domain, ii, r.action)) else sent.name,
      if r.action.routers != [] then Some(r.action.routers) else sent.routers,
      if m :| Wants(r, m) then Some(m) else sent.mask)
  }

  // --- the first rule and the rest ---

  ghost predicate PassesOn(r: Rule, ii: IfaceInfo) {
    Matches(r.criteria, ii) ==> r.action.cont && !r.action.ignore
  }

  lemma ReachedShift(rules: seq<Rule>, ii: IfaceInfo, j: nat)
    requires rules != []
    ensures Reached(rules, ii, 0) <==> Matches(rules[0].criteria, ii)
    ensures Reached(rules, ii, j + 1) <==> PassesOn(rules[0], ii) && Reached(rules[1..], ii, j)
  {
    hide Matches;
    var rest := rules[1..];
    if Reached(rules, ii, j + 1) {
      assert rest[j] == rules[j + 1];
      forall i | 0 <= i < j && Matches(rest[i].criteria, ii) ensures rest[i].action.cont && !rest[i].action.ignore {
        assert rest[i] == rules[i + 1];
      }
    }
    if PassesOn(rules[0], ii) && Reached(rest, ii, j) {
      assert rest[j] == rules[j + 1];
      forall i | 0 <= i < j + 1 && Matches(rules[i].criteria, ii)
        ensures rules[i].action.cont && !rules[i].action.ignore
      {
        assert i > 0 ==> rest[i - 1] == rules[i];
      }
    }
  }

  /** Some reached rule at index j ignores. */
  ghost predicate DroppedAt(rules: seq<Rule>, ii: IfaceInfo, j: int) {
    Reached(rules, ii, j) && rules[j].action.ignore
  }

  lemma DroppedShift(rules: seq<Rule>, ii: IfaceInfo)
    requires rules != []
    ensures Dropped(rules, ii) <==>
            (Matches(rules[0].criteria, ii) && rules[0].action.ignore)
            || (PassesOn(rules[0], ii) && Dropped(rules[1..], ii))
  {
    var rest := rules[1..];
    ReachedShift(rules, ii, 0);
    forall j: nat ensures DroppedAt(rules, ii, j + 1) <==> PassesOn(rules[0], ii) && DroppedAt(rest, ii, j) {
      ReachedShift(rules, ii, j);
      hide Matches, PassesOn;
    }
    DroppedSomewhere(rules, ii);
    DroppedSomewhere(rest, ii);
    assert DroppedAt(rules, ii, 0) <==> Matches(rules[0].criteria, ii) && rules[0].action.ignore;
    hide Matches, PassesOn, DroppedAt, Dropped, Reached;
    if j: nat :| DroppedAt(rules, ii, j) {
      assert j > 0 ==> DroppedAt(rules, ii, j - 1 + 1) && DroppedAt(rest, ii, j - 1);
    }
    if j: nat :| DroppedAt(rest, ii, j) {
      assert PassesOn(rules[0], ii) ==> DroppedAt(rules, ii, j + 1);
    }
  }

  lemma DroppedSomewhere(rules: seq<Rule>, ii: IfaceInfo)
    ensures Dropped(rules, ii) <==> exists j: nat :: DroppedAt(rules, ii, j)
  {
    hide Matches;
    if j :| Reached(rules, ii, j) && rules[j].action.ignore {
      assert DroppedAt(rules, ii, j);
    }
    if j: nat :| DroppedAt(rules, ii, j) {
      assert Reached(rules, ii, j);
    }
  }

  lemma ReachedIsIndex(rules: seq<Rule>, ii: IfaceInfo, j: int)
    requires Reached(rules, ii, j)
    ensures 0 <= j < |rules|
  {
  }

  lemma FiresShift(rules: seq<Rule>, ii: IfaceInfo, f: Field, j: nat)
    requires rules != []
    ensures Fires(rules, ii, f, 0) <==> Matches(rules[0].criteria, ii) && !rules[0].action.ignore && Sets(f, rules[0])
    ensures Fires(rules, ii, f, j + 1) <==> PassesOn(rules[0], ii) && Fires(rules[1..], ii, f, j)
  {
    ReachedShift(rules, ii, j);
    hide Matches, PassesOn, Sets, Reached;
    if Reached(rules, ii, j + 1) {
      ReachedIsIndex(rules, ii, j + 1);
    }
    if Reached(rules[1..], ii, j) {
      ReachedIsIndex(rules[1..], ii, j);
    }
  }

  /** Rule 0 fires and sets the field. */
  ghost predicate HeadFires(rules: seq<Rule>, ii: IfaceInfo, f: Field)
    requires rules != []
  {
    Matches(rules[0].criteria, ii) && !rules[0].action.ignore && Sets(f, rules[0])
  }

  lemma IsLastShift(rules: seq<Rule>, ii: IfaceInfo, f: Field, k: int, whole: int)
    requires rules != [] && IsLast(rules[1..], ii, f, |rules| - 1, k)
    requires whole == if PassesOn(rules[0], ii) && k != -1 then k + 1 else if HeadFires(rules, ii, f) then 0 else -1
    ensures IsLast(rules, ii, f, |rules|, whole)
  {
    var rest := rules[1..];
    FiresShift(rules, ii, f, 0);
    forall j | 0 <= j < |rest| ensures Fires(rules, ii, f, j + 1) <==> PassesOn(rules[0], ii) && Fires(rest, ii, f, j) {
      FiresShift(rules, ii, f, j);
    }
    hide Fires, PassesOn, HeadFires;
    assert Fires(rules, ii, f, 0) <==> HeadFires(rules, ii, f) by {
      HeadIs(rules, ii, f);
    }
    forall j | whole < j < |rules| ensures !Fires(rules, ii, f, j) {
      if j > 0 {
        assert Fires(rules, ii, f, j - 1 + 1) <==> PassesOn(rules[0], ii) && Fires(rest, ii, f, j - 1);
      }
    }
    assert whole > 0 ==> Fires(rules, ii, f, k + 1);
  }

  lemma HeadIs(rules: seq<Rule>, ii: IfaceInfo, f: Field)
    requires rules != []
    ensures Fires(rules, ii, f, 0) <==> HeadFires(rules, ii, f)
  {
    FiresShift(rules, ii, f, 0);
    hide Fires, Matches, Sets;
  }

  /** The last setter of a list is its tail's, if the first rule passes on and the tail has one; else the first. */
  lemma LastSetterShift(rules: seq<Rule>, ii: IfaceInfo, f: Field)
    requires rules != []
    ensures var k := LastSetter(rules[1..], ii, f, |rules| - 1);
            LastSetter(rules, ii, f, |rules|) ==
            if PassesOn(rules[0], ii) && k != -1 then k + 1 else if HeadFires(rules, ii, f) then 0 else -1
  {
    hide IsLast, LastSetter, PassesOn, HeadFires, Fires;
    var rest := rules[1..];
    var k := LastSetter(rest, ii, f, |rest|);
    var whole := if PassesOn(rules[0], ii) && k != -1 then k + 1 else if HeadFires(rules, ii, f) then 0 else -1;
    LastSetterIsLast(rest, ii, f, |rest|);
    IsLastShift(rules, ii, f, k, whole);
    LastIsUnique(rules, ii, f, |rules|, whole);
  }

  /** What the declarative reading says a list sends, given what was there before. */
  ghost function Declared(rules: seq<Rule>, domain: string, ii: IfaceInfo, before: Walked): Walked
    requires before.Send?
  {
    Send(NameSet(rules, domain, ii, before.name), RoutersSet(rules, ii, before.routers),
         MaskSet(rules, ii, before.mask))
  }

  lemma SetsMask(r: Rule)
    ensures Sets(MaskField, r) <==> exists m :: Wants(r, m)
    ensures Sets(MaskField, r) ==> Wants(r, EffectiveMask(r))
    ensures forall m :: Wants(r, m) ==> m == EffectiveMask(r)
  {
    forall m ensures Wants(r, m) <==> m == EffectiveMask(r) && Usable(m) {
      WantsEffective(r, m);
    }
    hide Wants, EffectiveMask, Usable;
  }

  lemma NameShift(rules: seq<Rule>, domain: string, ii: IfaceInfo, before: Option<string>)
    requires rules != []
    ensures var r := rules[0];
            var own := if HeadFires(rules, ii, NameField) then Some(RuleName(r, domain, ii)) else before;
            NameSet(rules, domain, ii, before) == if PassesOn(r, ii) then NameSet(rules[1..], domain, ii, own) else own
  {
    hide LastSetter, PassesOn, HeadFires, RuleName;
    LastSetterShift(rules, ii, NameField);
    var k := LastSetter(rules[1..], ii, NameField, |rules| - 1);
    assert k != -1 ==> rules[1..][k] == rules[k + 1];
  }

  lemma RoutersShift(rules: seq<Rule>, ii: IfaceInfo, before: Option<seq<u32>>)
    requires rules != []
    ensures var r := rules[0];
            var own := if HeadFires(rules, ii, RoutersField) then Some(r.action.routers) else before;
            RoutersSet(rules, ii, before) == if PassesOn(r, ii) then RoutersSet(rules[1..], ii, own) else own
  {
    hide LastSetter, PassesOn, HeadFires;
    LastSetterShift(rules, ii, RoutersField);
    var k := LastSetter(rules[1..], ii, RoutersField, |rules| - 1);
    assert k != -1 ==> rules[1..][k] == rules[k + 1];
  }

  lemma MaskShift(rules: seq<Rule>, ii: IfaceInfo, before: Option<Mask>)
    requires rules != []
    ensures var r := rules[0];
            var own := if HeadFires(rules, ii, MaskField) then Some(EffectiveMask(r)) else before;
            MaskSet(rules, ii, before) == if PassesOn(r, ii) then MaskSet(rules[1..], ii, own) else own
  {
    hide LastSetter, PassesOn, HeadFires, EffectiveMask;
    LastSetterShift(rules, ii, MaskField);
    var k := LastSetter(rules[1..], ii, MaskField, |rules| - 1);
    assert k != -1 ==> rules[1..][k] == rules[k + 1];
  }

  lemma AppliedIs(r: Rule, domain: string, ii: IfaceInfo, before: Walked)
    requires before.Send?
    ensures Applied(r, domain, ii, before) ==
            Send(if Sets(NameField, r) then Some(RuleName(r, domain, ii)) else before.name,
                 if Sets(RoutersField, r) then Some(r.action.routers) else before.routers,
                 if Sets(MaskField, r) then Some(EffectiveMask(r)) else before.mask)
  {
    SetsMask(r);
    hide Wants, EffectiveMask, TrimSpace, NameFor, Usable;
  }

  /** One rule more in front: the tail decides what it sets, the rule what it sets and the tail does not. */
  lemma DeclaredShift(rules: seq<Rule>, domain: string, ii: IfaceInfo, before: Walked)
    requires rules != [] && before.Send?
    ensures var r := rules[0];
            Declared(rules, domain, ii, before) ==
            if !Matches(r.criteria, ii) then Declared(rules[1..], domain, ii, before)
            else if r.action.ignore then before
            else if r.action.cont then Declared(rules[1..], domain, ii, Applied(r, domain, ii, before))
            else Applied(r, domain, ii, before)
  {
    NameShift(rules, domain, ii, before.name);
    RoutersShift(rules, ii, before.routers);
    MaskShift(rules, ii, before.mask);
    AppliedIs(rules[0], domain, ii, before);
    hide Matches, NameSet, RoutersSet, MaskSet, Applied, EffectiveMask, RuleName, Sets;
  }

  /** The reading one rule after another and the declarative one agree on every list, client and response. */
  lemma {:induction false} WalkIsDeclared(rules: seq<Rule>, domain: string, ii: IfaceInfo, before: Walked)
    requires before.Send?
    ensures Walk(rules, domain, ii, before) ==
            if Dropped(rules, ii) then Drop else Declared(rules, domain, ii, before)
    decreases |rules|
  {
    hide Matches, Declared, Applied, Reached;
    if rules == [] {
      NothingDeclared(domain, ii, before);
      NothingDropped(ii);
    } else {
      DroppedShift(rules, ii);
      DeclaredShift(rules, domain, ii, before);
      hide Dropped;
      WalkIsDeclared(rules[1..], domain, ii, before);
      WalkIsDeclared(rules[1..], domain, ii, Applied(rules[0], domain, ii, before));
    }
  }

  lemma NothingDeclared(domain: string, ii: IfaceInfo, before: Walked)
    requires before.Send?
    ensures Declared([], domain, ii, before) == before
  {
  }

  lemma NothingDropped(ii: IfaceInfo)
    ensures !Dropped([], ii)
  {
  }

  // --- the criteria ---

  /** A rule matches exactly when each of its criteria, alone, does. */
  lemma CriteriaAlone(m: Match, ii: IfaceInfo)
    ensures Matches(m, ii) <==>
            && Matches(Match(m.types, [], "", None), ii)
            && Matches(Match({}, m.subnets, "", None), ii)
            && Matches(Match({}, [], m.id, m.idSet), ii)
  {
    TrimNoOp("");
    hide TrimSpace, Contains;
  }

  /** What each criterion asks for: the type, the first address, the id, or the set of ids when no id is given. */
  lemma EachCriterion(types: set<string>, subnets: seq<Cidr>, id: string, idSet: Option<set<string>>, ii: IfaceInfo)
    ensures Matches(Match({}, [], "", None), ii)
    ensures types != {} ==> (Matches(Match(types, [], "", None), ii) <==> ii.typ in types)
    ensures subnets != [] ==>
              (Matches(Match({}, subnets, "", None), ii) <==>
               ii.ipList != [] && exists n :: n in subnets && Contains(n, ii.ipList[0]))
    ensures !Blank(id) ==> (Matches(Match({}, [], id, idSet), ii) <==> ii.compID == TrimSpace(id))
    ensures Blank(id) && idSet.Some? ==> (Matches(Match({}, [], id, idSet), ii) <==> ii.compID in idSet.value)
    ensures Blank(id) && idSet.None? ==> Matches(Match({}, [], id, idSet), ii)
  {
    TrimNoOp("");
    var _, _ := TrimSpaceSplits(id);
    hide TrimSpace, Contains, Blank;
    if ii.ipList != [] {
      forall i | 0 <= i < |subnets| && Contains(subnets[i], ii.ipList[0])
        ensures exists n :: n in subnets && Contains(n, ii.ipList[0])
      {
        assert subnets[i] in subnets;
      }
    }
  }
}
