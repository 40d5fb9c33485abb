/**
 * `ItemManager`: the ship inventory store. The items are one sequence that only
 * `SetItems` assigns; `Add` and `Remove` go through it. Besides the store it
 * holds the parsed blacklist and decides whether the chute trigger accepts the
 * item the local player holds.
 */
module Helpers {
  import opened Wrappers
  import opened Seqs
  import opened Text
  import opened Engine
  import opened Config
  import opened Objects

  // ----- Display order: OrderBy(name) then ThenBy(SCRAP_VALUE), a stable sort -----

  /** a sorts no later than b: by name (ordinal), then by scrap value. */
  predicate KeyLe(nameOf: ItemData -> string, a: ItemData, b: ItemData)
  {
    if nameOf(a) == nameOf(b) then a.scrapValue <= b.scrapValue else OrdinalLe(nameOf(a), nameOf(b))
  }

  /** The records that sort as equal to k (same name, same scrap value). */
  function SameKeyAs(nameOf: ItemData -> string, k: ItemData): ItemData -> bool
  {
    (d: ItemData) => nameOf(d) == nameOf(k) && d.scrapValue == k.scrapValue
  }

  predicate SortedForDisplay(s: seq<ItemData>, nameOf: ItemData -> string)
  {
    forall i, j :: 0 <= i < j < |s| ==> KeyLe(nameOf, s[i], s[j])
  }

  lemma KeyLeTotal(nameOf: ItemData -> string, a: ItemData, b: ItemData)
    ensures KeyLe(nameOf, a, b) || KeyLe(nameOf, b, a)
  {
    OrdinalTotal(nameOf(a), nameOf(b));
  }

  lemma KeyLeTransitive(nameOf: ItemData -> string, a: ItemData, b: ItemData, c: ItemData)
    requires KeyLe(nameOf, a, b) && KeyLe(nameOf, b, c)
    ensures KeyLe(nameOf, a, c)
  {
    var na, nb, nc := nameOf(a), nameOf(b), nameOf(c);
    if na != nb && nb != nc {
      if na == nc {
        OrdinalAntisymmetric(na, nb);
      } else {
        OrdinalTransitive(na, nb, nc);
      }
    }
  }

  /** Insert x before the first element that does not sort before it. */
  function Insert(nameOf: ItemData -> string, x: ItemData, s: seq<ItemData>): (r: seq<ItemData>)
    requires SortedForDisplay(s, nameOf)
    ensures SortedForDisplay(r, nameOf)
    ensures multiset(r) == multiset(s) + multiset{x}
    decreases |s|
  {
    if s == [] then [x]
    else if KeyLe(nameOf, x, s[0]) then
      InsertFront(nameOf, x, s);
      [x] + s
    else
      var t := Insert(nameOf, x, s[1..]);
      KeyLeTotal(nameOf, x, s[0]);
      InsertBehind(nameOf, x, s, t);
      assert s == [s[0]] + s[1..];
      [s[0]] + t
  }

  lemma InsertFront(nameOf: ItemData -> string, x: ItemData, s: seq<ItemData>)
    requires SortedForDisplay(s, nameOf) && s != [] && KeyLe(nameOf, x, s[0])
    ensures SortedForDisplay([x] + s, nameOf)
  {
    var r := [x] + s;
    forall i, j | 0 <= i < j < |r| ensures KeyLe(nameOf, r[i], r[j]) {
      if i == 0 && j > 1 {
        KeyLeTransitive(nameOf, x, s[0], s[j - 1]);
      }
    }
  }

  lemma InsertBehind(nameOf: ItemData -> string, x: ItemData, s: seq<ItemData>, t: seq<ItemData>)
    requires SortedForDisplay(s, nameOf) && s != [] && KeyLe(nameOf, s[0], x)
    requires SortedForDisplay(t, nameOf) && multiset(t) == multiset(s[1..]) + multiset{x}
    ensures SortedForDisplay([s[0]] + t, nameOf)
  {
    var r := [s[0]] + t;
    forall j | 0 <= j < |t| ensures KeyLe(nameOf, s[0], t[j]) {
      assert t[j] in multiset(t);
      if t[j] != x {
        assert t[j] in multiset(s[1..]);
        var k :| 0 <= k < |s[1..]| && s[1..][k] == t[j];
        assert s[k + 1] == t[j];
      }
    }
    forall i, j | 0 <= i < j < |r| ensures KeyLe(nameOf, r[i], r[j]) {
      if i > 0 {
        assert r[i] == t[i - 1] && r[j] == t[j - 1];
      }
    }
  }

  /** The stable insertion sort that `GetItems` performs. */
  function SortForDisplay(nameOf: ItemData -> string, s: seq<ItemData>): (r: seq<ItemData>)
    ensures SortedForDisplay(r, nameOf)
    ensures multiset(r) == multiset(s)
    decreases |s|
  {
    if s == [] then []
    else
      assert s == [s[0]] + s[1..];
      Insert(nameOf, s[0], SortForDisplay(nameOf, s[1..]))
  }

  /** Inserting keeps the relative order of equal-key records, the inserted one going first. */
  lemma {:induction false} InsertStable(nameOf: ItemData -> string, x: ItemData, s: seq<ItemData>, k: ItemData)
    requires SortedForDisplay(s, nameOf)
    ensures Where(Insert(nameOf, x, s), SameKeyAs(nameOf, k))
         == if SameKeyAs(nameOf, k)(x) then [x] + Where(s, SameKeyAs(nameOf, k)) else Where(s, SameKeyAs(nameOf, k))
    decreases |s|
  {
    var p := SameKeyAs(nameOf, k);
    if s == [] {
      assert Insert(nameOf, x, s) == [x];
      assert [x][1..] == [];
    } else if KeyLe(nameOf, x, s[0]) {
      var r := [x] + s;
      assert r[0] == x && r[1..] == s;
    } else {
      var t := Insert(nameOf, x, s[1..]);
      var r := [s[0]] + t;
      assert r[0] == s[0] && r[1..] == t;
      InsertStable(nameOf, x, s[1..], k);
      assert p(x) ==> !p(s[0]);
    }
  }

  /**
   * The sort is stable: records with equal names and values keep their store
   * order. With sortedness and the permutation property this determines the
   * result uniquely.
   */
  lemma {:induction false} SortStable(nameOf: ItemData -> string, s: seq<ItemData>, k: ItemData)
    ensures Where(SortForDisplay(nameOf, s), SameKeyAs(nameOf, k)) == Where(s, SameKeyAs(nameOf, k))
    decreases |s|
  {
    if s != [] {
      SortStable(nameOf, s[1..], k);
      InsertStable(nameOf, s[0], SortForDisplay(nameOf, s[1..]), k);
    }
  }

  // ----- Total value: LINQ Sum over SCRAP_VALUE, which fails on 32-bit overflow -----

  /** The mathematical sum of the scrap values. */
  function Sum(s: seq<ItemData>): (r: int)
    decreases |s|
  {
    if s == [] then 0 else s[0].scrapValue + Sum(s[1..])
  }

  lemma {:induction false} SumAppend(s: seq<ItemData>, d: ItemData)
    ensures Sum(s + [d]) == Sum(s) + d.scrapValue
    decreases |s|
  {
    if s == [] {
      assert ([] + [d])[1..] == [];
    } else {
      assert (s + [d])[1..] == s[1..] + [d];
      SumAppend(s[1..], d);
    }
  }

  lemma {:induction false} SumRemoveFirst(s: seq<ItemData>, d: ItemData)
    requires d in s
    ensures Sum(RemoveFirst(s, d)) == Sum(s) - d.scrapValue
    decreases |s|
  {
    if s[0] != d {
      SumRemoveFirst(s[1..], d);
      assert ([s[0]] + RemoveFirst(s[1..], d))[1..] == RemoveFirst(s[1..], d);
    }
  }

  /** Every running total, from the empty prefix to the whole sequence, fits in 32 bits. */
  predicate PartialSumsFit(s: seq<ItemData>)
  {
    forall k :: 0 <= k <= |s| ==> IsInt32(Sum(s[..k]))
  }

  /** Checked left-to-right accumulation, as `Enumerable.Sum` over `int` does it. */
  function CheckedSum(s: seq<ItemData>, acc: int32): (r: Option<int32>)
    decreases |s|
  {
    if s == [] then Some(acc)
    else if IsInt32(acc + s[0].scrapValue) then CheckedSum(s[1..], acc + s[0].scrapValue)
    else None
  }

  lemma {:induction false} CheckedSumCorrect(s: seq<ItemData>, acc: int32)
    ensures CheckedSum(s, acc).Some? <==> forall k :: 0 <= k <= |s| ==> IsInt32(acc + Sum(s[..k]))
    ensures CheckedSum(s, acc).Some? ==> CheckedSum(s, acc).value == acc + Sum(s)
    decreases |s|
  {
    if s != [] {
      var a := s[0].scrapValue;
      forall k | 1 <= k <= |s| ensures Sum(s[..k]) == a + Sum(s[1..][..k - 1]) {
        assert s[..k][1..] == s[1..][..k - 1];
      }
      assert s[..0] == [];
      assert s[1..][..|s| - 1] == s[1..] && s[..|s|] == s;
      if IsInt32(acc + a) {
        CheckedSumCorrect(s[1..], acc + a);
        if forall k :: 0 <= k <= |s| - 1 ==> IsInt32(acc + a + Sum(s[1..][..k])) {
          forall k | 0 <= k <= |s| ensures IsInt32(acc + Sum(s[..k])) {
            if k > 0 { assert IsInt32(acc + a + Sum(s[1..][..k - 1])); }
          }
        } else {
          var k :| 0 <= k <= |s| - 1 && !IsInt32(acc + a + Sum(s[1..][..k]));
          assert !IsInt32(acc + Sum(s[..k + 1]));
        }
      } else {
        assert !IsInt32(acc + Sum(s[..1]));
      }
    }
  }

  /** `GetTotalValue` on a given sequence: the sum, or None where `Sum` would throw on overflow. */
  function TotalValue(s: seq<ItemData>): (r: Option<int32>)
    ensures r.Some? <==> PartialSumsFit(s)
    ensures r.Some? ==> r.value == Sum(s)
  {
    CheckedSumCorrect(s, 0);
    CheckedSum(s, 0)
  }

  /** With no negative scrap value the sum overflows only when the whole total does not fit. */
  lemma {:induction false} NonNegativeSumFits(s: seq<ItemData>)
    requires forall i :: 0 <= i < |s| ==> s[i].scrapValue >= 0
    requires Sum(s) < 0x8000_0000
    ensures TotalValue(s) == Some(Sum(s))
    decreases |s|
  {
    if s != [] {
      assert forall i :: 0 <= i < |s[1..]| ==> s[1..][i] == s[i + 1];
      NonNegativeSumFits(s[1..]);
      forall k | 0 <= k <= |s| ensures IsInt32(Sum(s[..k])) {
        if k > 0 {
          assert s[..k][1..] == s[1..][..k - 1];
          assert s[1..] == s[1..][..k - 1] + s[1..][k - 1..];
          SumSplit(s[1..][..k - 1], s[1..][k - 1..]);
          SumNonNegative(s[1..][k - 1..]);
          SumNonNegative(s[1..][..k - 1]);
        }
      }
    }
  }

  lemma {:induction false} SumSplit(a: seq<ItemData>, b: seq<ItemData>)
    ensures Sum(a + b) == Sum(a) + Sum(b)
    decreases |a|
  {
    if a == [] {
      assert a + b == b;
    } else {
      assert (a + b)[0] == a[0] && (a + b)[1..] == a[1..] + b;
      SumSplit(a[1..], b);
    }
  }

  lemma {:induction false} SumNonNegative(s: seq<ItemData>)
    requires forall i :: 0 <= i < |s| ==> s[i].scrapValue >= 0
    ensures Sum(s) >= 0
    decreases |s|
  {
    if s != [] {
      assert forall i :: 0 <= i < |s[1..]| ==> s[1..][i] == s[i + 1];
      SumNonNegative(s[1..]);
    }
  }

  // ----- Instance selection -----

  function IsExactly(data: ItemData): ItemData -> bool { (d: ItemData) => d == data }

  function IsOfKind(id: int32): ItemData -> bool { (d: ItemData) => d.id == id }

  // ----- Blacklist -----

  predicate NonEmpty(s: string) { s != "" }

  /** The comma-separated segments that `RemoveEmptyEntries` keeps (white-space-only ones included). */
  function BlacklistSegments(text: string): seq<string>
  {
    Where(Split(text, ','), NonEmpty)
  }

  /** `UpdateBlacklist`'s value: each kept segment trimmed and lower-cased, in input order. */
  function ParseBlacklist(text: string, lowerChar: char -> char): (r: seq<string>)
    ensures |r| == Count(Split(text, ','), NonEmpty)
    ensures forall i :: 0 <= i < |r| ==> r[i] == ToLower(Trim(BlacklistSegments(text)[i]), lowerChar)
  {
    Select(BlacklistSegments(text), s => ToLower(Trim(s), lowerChar))
  }

  /** The kept segments are non-empty, contain no comma and occur in the text in order. */
  lemma BlacklistSegmentsOfText(text: string)
    ensures forall i :: 0 <= i < |BlacklistSegments(text)| ==> BlacklistSegments(text)[i] != "" && ',' !in BlacklistSegments(text)[i]
    ensures IsSubsequence(BlacklistSegments(text), Split(text, ','))
    ensures Join(Split(text, ','), ',') == text
  {
    SplitSegmentsHaveNoSeparator(text, ',');
    JoinSplit(text, ',');
    var segs := BlacklistSegments(text);
    forall i | 0 <= i < |segs| ensures ',' !in segs[i] {
      assert NonEmpty(segs[i]);
      SubsequenceElements(segs, Split(text, ','));
      assert segs[i] in Split(text, ',');
    }
  }

  /** A segment of white space only survives as the empty entry. */
  lemma WhiteSpaceSegmentIsEmptyEntry(text: string, lowerChar: char -> char, i: nat)
    requires i < |BlacklistSegments(text)|
    requires forall c :: c in BlacklistSegments(text)[i] ==> IsWhiteSpace(c)
    ensures ParseBlacklist(text, lowerChar)[i] == ""
  {
    var seg := BlacklistSegments(text)[i];
    TrimEmpty(seg);
    assert Trim(seg) == "" by {
      assert forall k :: 0 <= k < |seg| ==> seg[k] in seg;
    }
    assert |ToLower(Trim(seg), lowerChar)| == 0;
  }

  /** Two non-empty comma-free names joined by a comma are the two kept segments (as in "radio, jar"). */
  lemma TwoSegments(a: string, b: string)
    requires a != "" && b != "" && ',' !in a && ',' !in b
    ensures BlacklistSegments(a + [','] + b) == [a, b]
  {
    SplitAfterSegment(a, b, ',');
    SplitNoSeparator(b, ',');
    var segs := Split(a + [','] + b, ',');
    assert segs == [a, b];
    assert segs[1..] == [b] && segs[1..][1..] == [];
    assert NonEmpty(a) && NonEmpty(b);
    assert Where(segs[1..], NonEmpty) == [b] + Where(segs[1..][1..], NonEmpty);
  }

  /** An item whose lower-cased name equals a trimmed, lower-cased segment is blacklisted (matching ignores case and surrounding spaces). */
  lemma NameMatchesSegment(text: string, lowerChar: char -> char, item: GrabbableObject, i: nat)
    requires i < |BlacklistSegments(text)|
    requires ToLower(item.itemProperties.itemName, lowerChar) == ToLower(Trim(BlacklistSegments(text)[i]), lowerChar)
    ensures IsBlacklisted(item, ParseBlacklist(text, lowerChar), lowerChar)
  {
    assert ParseBlacklist(text, lowerChar)[i] == ToLower(item.itemProperties.itemName, lowerChar);
  }

  /** The blacklist "radio, jar" holds an item named "Radio", given a case mapping that lowers "Radio" and keeps "radio". */
  lemma RadioIsBlacklisted(lowerChar: char -> char, item: GrabbableObject)
    requires ToLower("Radio", lowerChar) == "radio" && ToLower("radio", lowerChar) == "radio"
    requires item.itemProperties.itemName == "Radio"
    ensures IsBlacklisted(item, ParseBlacklist("radio, jar", lowerChar), lowerChar)
  {
    RadioJarSegments();
    RadioTrimmed();
    NameMatchesSegment("radio, jar", lowerChar, item, 0);
  }

  /** "radio, jar" splits into the kept segments "radio" and " jar". */
  lemma RadioJarSegments()
    ensures BlacklistSegments("radio, jar") == ["radio", " jar"]
  {
    assert "radio, jar" == "radio" + [','] + " jar";
    TwoSegments("radio", " jar");
  }

  /** "radio" has no white space to trim. */
  lemma RadioTrimmed()
    ensures Trim("radio") == "radio"
  {
    assert TrimStart("radio") == "radio";
  }

  // ----- Trigger: the first matching rule decides -----

  /** What `UpdateTrigger` writes: interactable, or not with the reason's hover tip. */
  datatype Decision = Allow | Deny(reason: Reason)

  /** The state `UpdateTrigger` inspects besides the store's own fields. */
  datatype Context = Context(
    local: Player,
    settings: Settings,
    inShipPhase: bool,
    occupancy: int,
    blacklist: seq<string>)

  /** NO_ONE, HOST_ONLY for a client and CLIENTS_ONLY for the host refuse; everything else falls through. */
  predicate PermissionDenied(level: PermissionLevel, isHost: bool)
  {
    match level
    case NoOne => true
    case HostOnly => !isHost
    case ClientsOnly => isHost
    case Everyone => false
  }

  /** Only EVERYONE admits everybody and only NO_ONE admits nobody; HOST_ONLY and CLIENTS_ONLY admit exactly one side. */
  lemma PermissionTable(level: PermissionLevel)
    ensures (forall h: bool :: !PermissionDenied(level, h)) <==> level == Everyone
    ensures (forall h: bool :: PermissionDenied(level, h)) <==> level == NoOne
    ensures level == HostOnly ==> (PermissionDenied(level, false) && !PermissionDenied(level, true))
    ensures level == ClientsOnly ==> (PermissionDenied(level, true) && !PermissionDenied(level, false))
  {
    if level != Everyone {
      assert PermissionDenied(level, level == ClientsOnly);
    }
    if level != NoOne {
      assert !PermissionDenied(level, level == HostOnly);
    }
  }

  predicate IsBlacklisted(item: GrabbableObject, blacklist: seq<string>, lowerChar: char -> char)
  {
    ToLower(item.itemProperties.itemName, lowerChar) in blacklist
  }

  /** No spawn prefab, a ragdoll prefab, or an item already used up. */
  predicate NotAllowed(item: GrabbableObject)
  {
    match item.itemProperties.spawnPrefab
    case None => true
    case Some(prefab) => prefab.hasRagdollComponent || item.itemUsedUp
  }

  /** `UpdateTrigger`'s checks, in its order, each returning as soon as it fires. */
  function Decide(ctx: Context, lowerChar: char -> char): (r: Decision)
  {
    var local := ctx.local;
    if !local.isHoldingObject || local.currentlyHeldObjectServer.None? then Deny(NotHoldingItem)
    else if ctx.settings.overrideTrigger == Never then Deny(DisabledByHost)
    else if ctx.settings.overrideTrigger == All then Allow
    else if PermissionDenied(ctx.settings.chutePermission, local.isHost) then Deny(ChutePermissionMissing)
    else if !ctx.inShipPhase && ctx.settings.requireInOrbit then Deny(NotInOrbit)
    else if ctx.occupancy == ctx.settings.maxItemCount then Deny(InventoryFull)
    else
      var item := local.currentlyHeldObjectServer.value;
      if IsBlacklisted(item, ctx.blacklist, lowerChar) then Deny(ItemBlacklisted)
      else if NotAllowed(item) then Deny(ItemNotAllowed)
      else Allow  // the source assigns `isHoldingObject`, which is true here
  }

  /** A rule of a first-match-wins chain: when it applies, its outcome is the decision. */
  datatype Rule = Rule(applies: bool, outcome: Decision)

  function FirstMatch(rules: seq<Rule>, fallback: Decision): Decision
    decreases |rules|
  {
    if rules == [] then fallback
    else if rules[0].applies then rules[0].outcome
    else FirstMatch(rules[1..], fallback)
  }

  /** The first applicable rule decides; with none applicable the fallback does. */
  lemma {:induction false} FirstMatchIsFirstApplicable(rules: seq<Rule>, fallback: Decision, i: nat)
    requires i <= |rules|
    requires forall j :: 0 <= j < i ==> !rules[j].applies
    ensures i < |rules| && rules[i].applies ==> FirstMatch(rules, fallback) == rules[i].outcome
    ensures i == |rules| ==> FirstMatch(rules, fallback) == fallback
    decreases i
  {
    if i > 0 {
      assert forall j :: 0 <= j < i - 1 ==> rules[1..][j] == rules[j + 1];
      FirstMatchIsFirstApplicable(rules[1..], fallback, i - 1);
    }
  }

  /** The same checks written as a table, in priority order; `Decide` falls back to Allow. */
  function TriggerRules(ctx: Context, lowerChar: char -> char): seq<Rule>
  {
    var held := ctx.local.currentlyHeldObjectServer;
    [ Rule(!ctx.local.isHoldingObject || held.None?, Deny(NotHoldingItem)),
      Rule(ctx.settings.overrideTrigger == Never, Deny(DisabledByHost)),
      Rule(ctx.settings.overrideTrigger == All, Allow),
      Rule(PermissionDenied(ctx.settings.chutePermission, ctx.local.isHost), Deny(ChutePermissionMissing)),
      Rule(!ctx.inShipPhase && ctx.settings.requireInOrbit, Deny(NotInOrbit)),
      Rule(ctx.occupancy == ctx.settings.maxItemCount, Deny(InventoryFull)),
      Rule(held.Some? && IsBlacklisted(held.value, ctx.blacklist, lowerChar), Deny(ItemBlacklisted)),
      Rule(held.Some? && NotAllowed(held.value), Deny(ItemNotAllowed)) ]
  }

  /** Position of the rule that reports a reason. */
  function RuleOf(reason: Reason): nat
  {
    match reason
    case NotHoldingItem => 0
    case DisabledByHost => 1
    case ChutePermissionMissing => 3
    case NotInOrbit => 4
    case InventoryFull => 5
    case ItemBlacklisted => 6
    case ItemNotAllowed => 7
  }

  /** `Decide` is the first-match evaluation of the rule table. */
  lemma DecideIsFirstMatch(ctx: Context, lowerChar: char -> char)
    ensures Decide(ctx, lowerChar) == FirstMatch(TriggerRules(ctx, lowerChar), Allow)
  {
    var rules := TriggerRules(ctx, lowerChar);
    var i := FirstApplicable(rules, 0);
    FirstMatchIsFirstApplicable(rules, Allow, i);
    assert !rules[0].applies ==> ctx.local.currentlyHeldObjectServer.Some?;
    // Naming the eight rule conditions and splitting on i exposes each one to the solver.
    ghost var applies := [rules[0].applies, rules[1].applies, rules[2].applies, rules[3].applies,
      rules[4].applies, rules[5].applies, rules[6].applies, rules[7].applies];
    if i == 0 { } else if i == 1 { } else if i == 2 { } else if i == 3 { }
    else if i == 4 { } else if i == 5 { } else if i == 6 { } else if i == 7 { }
    else { }
  }

  /** Index of the first applicable rule at or after i, or |rules| when there is none. */
  function FirstApplicable(rules: seq<Rule>, i: nat): (j: nat)
    requires i <= |rules|
    ensures i <= j <= |rules|
    ensures forall k :: i <= k < j ==> !rules[k].applies
    ensures j < |rules| ==> rules[j].applies
    decreases |rules| - i
  {
    if i == |rules| || rules[i].applies then i else FirstApplicable(rules, i + 1)
  }

  /** Each reason is reported by one rule only. */
  lemma OutcomeIdentifiesRule(ctx: Context, lowerChar: char -> char, j: nat, reason: Reason)
    requires j < |TriggerRules(ctx, lowerChar)| && TriggerRules(ctx, lowerChar)[j].outcome == Deny(reason)
    ensures j == RuleOf(reason)
  {
    var rules := TriggerRules(ctx, lowerChar);
    if j == 0 { assert rules[0].outcome == Deny(NotHoldingItem); }
    else if j == 1 { assert rules[1].outcome == Deny(DisabledByHost); }
    else if j == 2 { }
    else if j == 3 { assert rules[3].outcome == Deny(ChutePermissionMissing); }
    else if j == 4 { assert rules[4].outcome == Deny(NotInOrbit); }
    else if j == 5 { assert rules[5].outcome == Deny(InventoryFull); }
    else if j == 6 { assert rules[6].outcome == Deny(ItemBlacklisted); }
    else { assert rules[7].outcome == Deny(ItemNotAllowed); }
  }

  /**
   * Strict priority: a reason is reported exactly when its rule applies and no
   * earlier rule does, so of several failing checks the earliest one is shown.
   */
  lemma DenyMeansFirstFailingRule(ctx: Context, lowerChar: char -> char, reason: Reason)
    ensures Decide(ctx, lowerChar) == Deny(reason) <==>
      TriggerRules(ctx, lowerChar)[RuleOf(reason)].applies
      && forall j :: 0 <= j < RuleOf(reason) ==> !TriggerRules(ctx, lowerChar)[j].applies
  {
    var rules := TriggerRules(ctx, lowerChar);
    DecideIsFirstMatch(ctx, lowerChar);
    var i := FirstApplicable(rules, 0);
    FirstMatchIsFirstApplicable(rules, Allow, i);
    if Decide(ctx, lowerChar) == Deny(reason) {
      OutcomeIdentifiesRule(ctx, lowerChar, i, reason);
    }
  }

  /**
   * The trigger accepts exactly when something is held, the override is not
   * NEVER, and either the override is ALL or every later check passes.
   */
  lemma AllowIff(ctx: Context, lowerChar: char -> char)
    ensures Decide(ctx, lowerChar) == Allow <==>
      ctx.local.isHoldingObject && ctx.local.currentlyHeldObjectServer.Some?
      && ctx.settings.overrideTrigger != Never
      && (ctx.settings.overrideTrigger == All
          || (!PermissionDenied(ctx.settings.chutePermission, ctx.local.isHost)
              && (ctx.inShipPhase || !ctx.settings.requireInOrbit)
              && ctx.occupancy != ctx.settings.maxItemCount
              && !IsBlacklisted(ctx.local.currentlyHeldObjectServer.value, ctx.blacklist, lowerChar)
              && !NotAllowed(ctx.local.currentlyHeldObjectServer.value)))
  {
  }

  /** Fullness is an equality test: a store already above the limit is not reported full. */
  lemma OverCapacityIsNotFull(ctx: Context, lowerChar: char -> char)
    requires ctx.occupancy > ctx.settings.maxItemCount
    ensures Decide(ctx, lowerChar) != Deny(InventoryFull)
  {
  }

  /** HOST_ONLY refuses a client whatever the occupancy and the blacklist, unless forced by the override. */
  lemma HostOnlyRefusesClients(ctx: Context, lowerChar: char -> char)
    requires ctx.local.isHoldingObject && ctx.local.currentlyHeldObjectServer.Some?
    requires ctx.settings.overrideTrigger == NoOverride
    requires ctx.settings.chutePermission == HostOnly && !ctx.local.isHost
    ensures Decide(ctx, lowerChar) == Deny(ChutePermissionMissing)
  {
  }

  /** With the default settings and room left, a held item on the blacklist is refused as BLACKLISTED. */
  lemma BlacklistedItemRefused(ctx: Context, lowerChar: char -> char)
    requires ctx.local.isHoldingObject && ctx.local.currentlyHeldObjectServer.Some?
    requires ctx.settings.overrideTrigger == NoOverride && ctx.settings.chutePermission == Everyone
    requires !ctx.settings.requireInOrbit && ctx.occupancy != ctx.settings.maxItemCount
    requires IsBlacklisted(ctx.local.currentlyHeldObjectServer.value, ctx.blacklist, lowerChar)
    ensures Decide(ctx, lowerChar) == Deny(ItemBlacklisted)
  {
  }

  // ----- The store -----

  class ItemManager {
    /** The items stored in the ship's inventory; only `SetItems` assigns it. */
    var storedItems: seq<ItemData>
    /** The parsed blacklist. */
    var blacklist: seq<string>
    /** Whether the chute exists (`ChuteInteract.Instance != null`); notifications go to it. */
    const chuteSpawned: bool
    /** Occupancy notifications sent to the chute (`UpdateValue`). */
    ghost var valueUpdates: nat
    /** Full resyncs requested from the chute (`RequestItemsAll`). */
    ghost var itemsAllRequests: nat

    constructor (chuteSpawned: bool)
      ensures storedItems == [] && blacklist == []
      ensures this.chuteSpawned == chuteSpawned
      ensures valueUpdates == 0 && itemsAllRequests == 0
    {
      storedItems := [];
      blacklist := [];
      this.chuteSpawned := chuteSpawned;
      valueUpdates := 0;
      itemsAllRequests := 0;
    }

    /**
     * A fresh sequence holding the stored items sorted by name, then by scrap
     * value, equal keys in store order. Reading the store does not change it.
     */
    function GetItems(nameOf: ItemData -> string): (r: seq<ItemData>)
      reads this
      ensures SortedForDisplay(r, nameOf)
      ensures multiset(r) == multiset(storedItems)
      ensures forall k :: Where(r, SameKeyAs(nameOf, k)) == Where(storedItems, SameKeyAs(nameOf, k))
    {
      var r := SortForDisplay(nameOf, storedItems);
      forall k ensures Where(r, SameKeyAs(nameOf, k)) == Where(storedItems, SameKeyAs(nameOf, k)) {
        SortStable(nameOf, storedItems, k);
      }
      r
    }

    /**
     * With count 1, at most one record, equal to data, present exactly when data
     * is stored; otherwise the first records of data's kind, at most count of them
     * (none when count <= 0). Either way a subsequence of the store.
     */
    function GetInstances(data: ItemData, count: int): (r: seq<ItemData>)
      reads this
      ensures IsSubsequence(r, storedItems)
      ensures count == 1 ==> |r| <= 1 && (forall i :: 0 <= i < |r| ==> r[i] == data) && (|r| == 1 <==> data in storedItems)
      ensures count != 1 ==> (forall i :: 0 <= i < |r| ==> r[i].id == data.id)
      ensures count != 1 ==> |r| == if count <= 0 then 0 else Min(count, Count(storedItems, IsOfKind(data.id)))
      ensures count != 1 ==> r == Where(storedItems, IsOfKind(data.id))[..|r|]
    {
      var p := if count == 1 then IsExactly(data) else IsOfKind(data.id);
      var w := Where(storedItems, p);
      var r := Take(w, count);
      SubsequencePrefix(w, storedItems, |r|);
      assert count == 1 ==> (w != [] <==> data in storedItems);
      r
    }

    /** The sum of the stored scrap values, or None where the checked 32-bit sum would throw. */
    function GetTotalValue(): (r: Option<int32>)
      reads this
      ensures r.Some? <==> PartialSumsFit(storedItems)
      ensures r.Some? ==> r.value == Sum(storedItems)
    {
      TotalValue(storedItems)
    }

    /** The one write funnel: store the new items, notify the chute, and request a full resync when asked. */
    method SetItems(newItems: seq<ItemData>, updateAll: bool := false)
      modifies this`storedItems, this`valueUpdates, this`itemsAllRequests
      ensures storedItems == newItems
      ensures valueUpdates == old(valueUpdates) + (if chuteSpawned then 1 else 0)
      ensures itemsAllRequests == old(itemsAllRequests) + (if chuteSpawned && updateAll then 1 else 0)
    {
      storedItems := newItems;
      if chuteSpawned {
        valueUpdates := valueUpdates + 1;
        if updateAll {
          itemsAllRequests := itemsAllRequests + 1;
        }
      }
    }

    /** Append one record; the total grows by its value; no full resync. */
    method Add(data: ItemData)
      modifies this`storedItems, this`valueUpdates, this`itemsAllRequests
      ensures storedItems == old(storedItems) + [data]
      ensures Sum(storedItems) == Sum(old(storedItems)) + data.scrapValue
      ensures valueUpdates == old(valueUpdates) + (if chuteSpawned then 1 else 0)
      ensures itemsAllRequests == old(itemsAllRequests)
    {
      SumAppend(storedItems, data);
      SetItems(storedItems + [data]);
    }

    /** Remove the first record equal to data from a copy and store the copy; no full resync. */
    method Remove(data: ItemData)
      modifies this`storedItems, this`valueUpdates, this`itemsAllRequests
      ensures storedItems == RemoveFirst(old(storedItems), data)
      ensures data in old(storedItems) ==> Sum(storedItems) == Sum(old(storedItems)) - data.scrapValue
      ensures valueUpdates == old(valueUpdates) + (if chuteSpawned then 1 else 0)
      ensures itemsAllRequests == old(itemsAllRequests)
    {
      var copy := storedItems;
      var i := IndexOf(copy, data);
      if i >= 0 {
        RemoveFirstAt(copy, data, i);
        SumRemoveFirst(copy, data);
        copy := copy[..i] + copy[i + 1..];
      } else {
        RemoveFirstAbsent(copy, data);
      }
      SetItems(copy);
    }

    /** Build the record for an item and emit the store request to the host; nothing without a chute. */
    method StoreItem(item: GrabbableObject) returns (request: Option<ItemData>)
      ensures request == if chuteSpawned then Some(FromItem(item)) else None
    {
      if !chuteSpawned {
        return None;
      }
      request := Some(FromItem(item));
    }

    /** Replace the blacklist with the parsed text. */
    method UpdateBlacklist(blacklistString: string, lowerChar: char -> char)
      modifies this`blacklist
      ensures blacklist == ParseBlacklist(blacklistString, lowerChar)
    {
      blacklist := ParseBlacklist(blacklistString, lowerChar);
    }

    /** Set the trigger from the decision over the player, the settings, the round state and the store. */
    method UpdateTrigger(trigger: InteractTrigger, local: Player, settings: Settings, inShipPhase: bool, lowerChar: char -> char)
      modifies trigger
      ensures Decide(Context(local, settings, inShipPhase, |storedItems|, blacklist), lowerChar) == Allow ==>
        trigger.interactable && trigger.disabledHoverTip == old(trigger.disabledHoverTip)
      ensures forall reason :: Decide(Context(local, settings, inShipPhase, |storedItems|, blacklist), lowerChar) == Deny(reason) ==>
        !trigger.interactable && trigger.disabledHoverTip == Some(reason)
    {
      var decision := Decide(Context(local, settings, inShipPhase, |storedItems|, blacklist), lowerChar);
      match decision
      case Allow =>
        trigger.interactable := true;
      case Deny(reason) =>
        trigger.interactable := false;
        trigger.disabledHoverTip := Some(reason);
    }
  }

  /** With capacity 1 an empty store accepts a legal item; after that one deposit it reports full. */
  method CapacityScenario(local: Player, settings: Settings, lowerChar: char -> char, trigger: InteractTrigger)
    returns (acceptedFirst: bool)
    requires local.isHoldingObject && local.currentlyHeldObjectServer.Some?
    requires settings == Settings(NoOverride, Everyone, false, 1)
    requires !NotAllowed(local.currentlyHeldObjectServer.value)
    modifies trigger
    ensures acceptedFirst
    ensures !trigger.interactable && trigger.disabledHoverTip == Some(InventoryFull)
  {
    var manager := new ItemManager(true);
    manager.UpdateTrigger(trigger, local, settings, true, lowerChar);
    acceptedFirst := trigger.interactable;
    manager.Add(FromItem(local.currentlyHeldObjectServer.value));
    manager.UpdateTrigger(trigger, local, settings, true, lowerChar);
  }
}
