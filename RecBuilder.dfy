/** The recommendation builder: the checked priority boxes decide the list
    of advisory lines shown in the output, in a fixed priority order. */
module RecBuilder {
  import opened JsBuiltins

  /** The four priorities a checkbox can stand for. */
  datatype Priority = Security | Integration | Training | Analytics

  /** The `data-key` of a priority's checkbox. */
  function Key(p: Priority): string
  {
    match p
    case Security => "security"
    case Integration => "integration"
    case Training => "training"
    case Analytics => "analytics"
  }

  /** The fixed texts of the builder: one advisory text per priority and
      the placeholder prompt. The proofs hold whatever the texts are;
      `SiteTexts` holds the page's own. */
  datatype Texts = Texts(
    security: string, integration: string, training: string, analytics: string,
    placeholder: string)

  const SiteTexts: Texts := Texts(
    "Run security audits, encrypt payment flows and enable monitoring/alerts.",
    "Use middleware to phase legacy systems into ERP & BI; pilot one corridor first.",
    "Create micro-training modules and station pilots to boost adoption.",
    "Deploy BI dashboards for ops & maintenance with simple KPIs to start.",
    "No priorities selected — toggle options above.")

  /** The advisory text of a priority. */
  function Advice(texts: Texts, p: Priority): string
  {
    match p
    case Security => texts.security
    case Integration => texts.integration
    case Training => texts.training
    case Analytics => texts.analytics
  }

  /** The four advisory texts are pairwise different. */
  predicate DistinctAdvice(texts: Texts)
  {
    forall p, q :: Advice(texts, p) == Advice(texts, q) ==> p == q
  }

  /** The list item rendered for a priority. */
  function Line(texts: Texts, p: Priority): string
  {
    "<li>" + Advice(texts, p) + "</li>"
  }

  /** The markup shown when no priority is checked. */
  function Placeholder(texts: Texts): string
  {
    "<em>" + texts.placeholder + "</em>"
  }

  /** The order in which the lines appear. */
  const Order: seq<Priority> := [Security, Integration, Training, Analytics]

  /** The position of a priority in `Order`. */
  function Rank(p: Priority): (r: nat)
    ensures r < |Order| && Order[r] == p
  {
    match p
    case Security => 0
    case Integration => 1
    case Training => 2
    case Analytics => 3
  }

  /** The priorities strictly ascend in `Order` (so none repeats). */
  predicate Ascending(ps: seq<Priority>)
  {
    forall i, j :: 0 <= i < j < |ps| ==> Rank(ps[i]) < Rank(ps[j])
  }

  /** The priorities of `ps`, in their order, whose key is among the checked keys. */
  function Chosen(ps: seq<Priority>, checked: seq<string>): (r: seq<Priority>)
    ensures |r| <= |ps|
    decreases |ps|
  {
    if ps == [] then []
    else
      var rest := Chosen(ps[1..], checked);
      if Key(ps[0]) in checked then [ps[0]] + rest else rest
  }

  /** The advisory lines of a list of priorities. */
  function Lines(texts: Texts, ps: seq<Priority>): (lines: seq<string>)
    ensures |lines| == |ps|
    decreases |ps|
  {
    if ps == [] then [] else [Line(texts, ps[0])] + Lines(texts, ps[1..])
  }

  /** The output's markup for a list of lines: a list, or the placeholder when it is empty. */
  function Render(texts: Texts, lines: seq<string>): string
  {
    if lines == [] then Placeholder(texts) else "<ul>" + Join(lines, "") + "</ul>"
  }

  /** The output for a selection of checked keys. */
  function Output(texts: Texts, checked: seq<string>): string
  {
    Render(texts, Lines(texts, Chosen(Order, checked)))
  }

  /** `updateRecs` with the keys of the checked boxes: one line per known
      key, pushed in the fixed order, joined into a list, or the placeholder
      when there is none. */
  method UpdateRecs(texts: Texts, checked: seq<string>) returns (html: string)
    ensures html == Output(texts, checked)
  {
    var lines: seq<string> := [];
    ghost var chosen: seq<Priority> := [];
    if "security" in checked {
      LinesAppend(texts, chosen, Security);
      lines, chosen := lines + [Line(texts, Security)], chosen + [Security];
    }
    if "integration" in checked {
      LinesAppend(texts, chosen, Integration);
      lines, chosen := lines + [Line(texts, Integration)], chosen + [Integration];
    }
    if "training" in checked {
      LinesAppend(texts, chosen, Training);
      lines, chosen := lines + [Line(texts, Training)], chosen + [Training];
    }
    if "analytics" in checked {
      LinesAppend(texts, chosen, Analytics);
      lines, chosen := lines + [Line(texts, Analytics)], chosen + [Analytics];
    }
    assert lines == Lines(texts, chosen);
    ChosenFromOrder(checked);
    assert chosen == Chosen(Order, checked);
    html := if |lines| > 0 then "<ul>" + Join(lines, "") + "</ul>" else Placeholder(texts);
  }

  lemma {:induction false} LinesAt(texts: Texts, ps: seq<Priority>, i: nat)
    requires i < |ps|
    ensures Lines(texts, ps)[i] == Line(texts, ps[i])
    decreases |ps|
  {
    if i > 0 {
      LinesAt(texts, ps[1..], i - 1);
    }
  }

  lemma {:induction false} LinesAppend(texts: Texts, ps: seq<Priority>, p: Priority)
    ensures Lines(texts, ps + [p]) == Lines(texts, ps) + [Line(texts, p)]
    decreases |ps|
  {
    if ps == [] {
      assert [p][1..] == [];
    } else {
      assert (ps + [p])[1..] == ps[1..] + [p];
      LinesAppend(texts, ps[1..], p);
    }
  }

  lemma {:induction false} ChosenSnoc(ps: seq<Priority>, p: Priority, checked: seq<string>)
    ensures Chosen(ps + [p], checked) == Chosen(ps, checked) + (if Key(p) in checked then [p] else [])
    decreases |ps|
  {
    if ps == [] {
      assert [p][1..] == [];
    } else {
      assert (ps + [p])[1..] == ps[1..] + [p];
      ChosenSnoc(ps[1..], p, checked);
    }
  }

  /** `Chosen` over `Order`, written out one priority at a time. */
  lemma ChosenFromOrder(checked: seq<string>)
    ensures Chosen(Order, checked) ==
      (if Key(Security) in checked then [Security] else []) +
      (if Key(Integration) in checked then [Integration] else []) +
      (if Key(Training) in checked then [Training] else []) +
      (if Key(Analytics) in checked then [Analytics] else [])
  {
    ChosenSnoc([], Security, checked);
    ChosenSnoc([Security], Integration, checked);
    ChosenSnoc([Security, Integration], Training, checked);
    ChosenSnoc([Security, Integration, Training], Analytics, checked);
    assert [Security, Integration, Training] + [Analytics] == Order;
  }

  /** A priority is chosen exactly when it is in `ps` and its key is checked. */
  lemma {:induction false} ChosenMembers(ps: seq<Priority>, checked: seq<string>)
    ensures forall p :: p in Chosen(ps, checked) <==> p in ps && Key(p) in checked
    decreases |ps|
  {
    if ps != [] {
      ChosenMembers(ps[1..], checked);
      assert ps == [ps[0]] + ps[1..];
    }
  }

  /** Choosing keeps the order of `ps`. */
  lemma {:induction false} ChosenAscending(ps: seq<Priority>, checked: seq<string>)
    requires Ascending(ps)
    ensures Ascending(Chosen(ps, checked))
    decreases |ps|
  {
    if ps != [] {
      var rest := Chosen(ps[1..], checked);
      assert Ascending(ps[1..]) by {
        forall i, j | 0 <= i < j < |ps[1..]| ensures Rank(ps[1..][i]) < Rank(ps[1..][j]) {
          assert ps[1..][i] == ps[i + 1] && ps[1..][j] == ps[j + 1];
        }
      }
      ChosenAscending(ps[1..], checked);
      ChosenMembers(ps[1..], checked);
      if Key(ps[0]) in checked {
        var r := [ps[0]] + rest;
        forall i, j | 0 <= i < j < |r| ensures Rank(r[i]) < Rank(r[j]) {
          if i == 0 {
            assert r[j] in rest;
            var k :| 0 <= k < |ps[1..]| && ps[1..][k] == r[j];
            assert ps[k + 1] == r[j];
          } else {
            assert r[i] == rest[i - 1] && r[j] == rest[j - 1];
          }
        }
      }
    }
  }

  /** Every priority has its place in `Order`. */
  lemma InOrder(p: Priority)
    ensures p in Order
  {
    assert Order[Rank(p)] == p;
  }

  /** The lines follow the fixed order, and a line appears exactly for each
      priority whose key was checked. */
  lemma OutputLinesInOrder(checked: seq<string>)
    ensures Ascending(Chosen(Order, checked))
    ensures forall p :: p in Chosen(Order, checked) <==> Key(p) in checked
  {
    ChosenAscending(Order, checked);
    ChosenMembers(Order, checked);
    forall p ensures p in Order {
      InOrder(p);
    }
  }

  /** Only which known keys are checked matters: not their order, repeats,
      nor keys of no priority. */
  lemma {:induction false} ChosenDependsOnlyOnSelection(ps: seq<Priority>, a: seq<string>, b: seq<string>)
    requires forall p :: p in ps ==> (Key(p) in a <==> Key(p) in b)
    ensures Chosen(ps, a) == Chosen(ps, b)
    decreases |ps|
  {
    if ps != [] {
      ChosenDependsOnlyOnSelection(ps[1..], a, b);
    }
  }

  lemma OutputDependsOnlyOnSelection(texts: Texts, a: seq<string>, b: seq<string>)
    requires forall p: Priority :: Key(p) in a <==> Key(p) in b
    ensures Output(texts, a) == Output(texts, b)
  {
    ChosenDependsOnlyOnSelection(Order, a, b);
  }

  /** The placeholder is shown exactly when no known key is checked. */
  lemma PlaceholderWhenNothingChecked(texts: Texts, checked: seq<string>)
    ensures Output(texts, checked) == Placeholder(texts) <==> forall p: Priority :: Key(p) !in checked
  {
    OutputLinesInOrder(checked);
    var chosen := Chosen(Order, checked);
    if chosen != [] {
      var out := Output(texts, checked);
      assert out == "<ul>" + (Join(Lines(texts, chosen), "") + "</ul>");
      assert out[1] == 'u';
      assert Placeholder(texts)[1] == 'e';
    }
  }

  /** Different priorities have different lines when their texts differ. */
  lemma LineInjective(texts: Texts, p: Priority, q: Priority)
    requires DistinctAdvice(texts)
    requires Line(texts, p) == Line(texts, q)
    ensures p == q
  {
    var a, b := Advice(texts, p), Advice(texts, q);
    assert Line(texts, p)[4..4 + |a|] == a;
    assert Line(texts, q)[4..4 + |b|] == b;
  }

  /** The page's four advisory texts are pairwise different (they differ in length). */
  lemma SiteTextsDistinct()
    ensures DistinctAdvice(SiteTexts)
  {
    assert |SiteTexts.security| == 72 && |SiteTexts.integration| == 79;
    assert |SiteTexts.training| == 67 && |SiteTexts.analytics| == 69;
  }

  /** With distinct texts, the lines shown give back which priorities were checked. */
  lemma LinesDetermineSelection(texts: Texts, a: seq<string>, b: seq<string>)
    requires DistinctAdvice(texts)
    requires Lines(texts, Chosen(Order, a)) == Lines(texts, Chosen(Order, b))
    ensures forall p: Priority :: Key(p) in a <==> Key(p) in b
  {
    var ca, cb := Chosen(Order, a), Chosen(Order, b);
    forall i | 0 <= i < |ca| ensures ca[i] == cb[i] {
      LinesAt(texts, ca, i);
      LinesAt(texts, cb, i);
      LineInjective(texts, ca[i], cb[i]);
    }
    assert ca == cb;
    OutputLinesInOrder(a);
    OutputLinesInOrder(b);
  }

  /** Checking security and analytics, in either order, shows exactly
      their two lines, security first. */
  lemma SecurityAndAnalytics(texts: Texts)
    ensures Output(texts, ["analytics", "security"]) ==
      "<ul>" + Line(texts, Security) + Line(texts, Analytics) + "</ul>"
    ensures Output(texts, ["security", "analytics"]) == Output(texts, ["analytics", "security"])
  {
    var c := ["analytics", "security"];
    ChosenFromOrder(c);
    assert "integration" !in c && "training" !in c;
    assert Chosen(Order, c) == [Security, Analytics];
    var ls := Lines(texts, [Security, Analytics]);
    assert [Security, Analytics][1..] == [Analytics];
    assert ls == [Line(texts, Security), Line(texts, Analytics)];
    assert Join(ls, "") == Line(texts, Security) + Line(texts, Analytics) by {
      assert ls[1..] == [Line(texts, Analytics)];
    }
    OutputDependsOnlyOnSelection(texts, ["security", "analytics"], c);
  }
}
