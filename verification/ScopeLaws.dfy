/** Containment, scopes and ownership said about the texts of names. */
module ScopeLaws {
  import opened Text
  import opened Seqs
  import opened Names
  import opened NameLaws
  import opened Records
  import opened Scopes
  import opened Zones

  /** The child's text is the parent's behind whole labels, which end in a dot that no backslash escapes. */
  predicate Extends(parent: Text, child: Text) {
    && |parent| < |child|
    && child[|child| - |parent|..] == parent
    && EndsLabel(child[..|child| - |parent|])
  }

  lemma {:induction false} FqdnConcat(a: Text, b: Text)
    requires IsFqdn(a) && IsFqdn(b)
    ensures IsFqdn(a + b) && NextDot(a + b) == NextDot(a)
  {
    var s := a + b;
    if a[0] == '\\' {
      assert s[2..] == a[2..] + b;
      FqdnConcat(a[2..], b);
    } else if a == "." {
      assert s[1..] == b;
    } else {
      assert s[1..] == a[1..] + b;
      FqdnConcat(a[1..], b);
    }
  }

  lemma {:induction false} FirstLabelIsFqdn(s: Text)
    requires IsFqdn(s)
    ensures NextDot(s) < |s| && IsFqdn(s[..NextDot(s) + 1])
  {
    NextDotOfFqdn(s);
    FqdnEndsInDot(s);
    var first := s[..NextDot(s) + 1];
    if s[0] == '\\' {
      hide IsFqdn, NextDot;
      var tail := s[2..];
      assert s == ['\\', s[1]] + tail;
      EscapeShape(s[1], tail);
      FirstLabelIsFqdn(tail);
      assert first == ['\\', s[1]] + tail[..NextDot(tail) + 1];
      EscapeShape(s[1], tail[..NextDot(tail) + 1]);
    } else if s[0] != '.' {
      hide IsFqdn, NextDot;
      var tail := s[1..];
      HeadTail(s);
      OrdinaryShape(s[0], tail);
      FirstLabelIsFqdn(tail);
      assert first == [s[0]] + tail[..NextDot(tail) + 1];
      OrdinaryShape(s[0], tail[..NextDot(tail) + 1]);
    } else {
      assert first == ".";
    }
  }

  lemma SplitNothing()
    ensures SplitDots([]) == []
  {
  }

  /** Where a label ends, the text splits. */
  lemma {:induction false} SplitConcat(a: Text, b: Text)
    requires IsFqdn(a) && IsFqdn(b)
    ensures SplitDots(a + b) == SplitDots(a) + SplitDots(b)
  {
    hide SplitDots, NextDot, IsFqdn;
    var s, i := a + b, NextDot(a);
    NextDotOfFqdn(a);
    FqdnConcat(a, b);
    SplitDotsAt(s, i);
    SplitDotsAt(a, i);
    assert s[..i] == a[..i] && s[i + 1..] == a[i + 1..] + b;
    if a[i + 1..] == [] {
      SplitNothing();
      assert s[i + 1..] == b;
    } else {
      SplitConcat(a[i + 1..], b);
      ConcatAssociates([a[..i]], SplitDots(a[i + 1..]), SplitDots(b));
    }
  }

  /** The first label and the labels behind it. */
  lemma {:induction false} FirstAndRest(s: Text, n: nat) returns (first: Text, rest: Text)
    requires IsFqdn(s) && 0 < n <= |SplitDots(s)|
    ensures s == first + rest && IsFqdn(first) && (rest == [] || IsFqdn(rest)) && |rest| < |s|
    ensures n - 1 <= |SplitDots(rest)| && SplitDots(s)[n..] == SplitDots(rest)[n - 1..]
  {
    hide SplitDots, NextDot, IsFqdn;
    var i := NextDot(s);
    FirstLabelIsFqdn(s);
    NextDotOfFqdn(s);
    SplitDotsAt(s, i);
    first, rest := s[..i + 1], s[i + 1..];
  }

  /** The last labels of a name, with what is before them. */
  lemma {:induction false} LastLabels(s: Text, n: nat) returns (x: Text)
    requires IsFqdn(s) && n <= |SplitDots(s)|
    ensures s == x + Dotted(SplitDots(s)[n..])
    ensures if n == 0 then x == [] else IsFqdn(x)
    decreases |s|
  {
    hide SplitDots, IsFqdn, Dotted;
    if n == 0 {
      x := [];
      DottedUndoesSplit(s);
      assert SplitDots(s)[0..] == SplitDots(s);
    } else {
      var first, rest := FirstAndRest(s, n);
      if rest == [] {
        x := first;
        NothingIsDotted(n - 1);
      } else {
        var y := LastLabels(rest, n - 1);
        x := first + y;
        ConcatAssociates(first, y, Dotted(SplitDots(rest)[n - 1..]));
        FqdnBefore(first, y);
      }
    }
  }

  lemma NothingIsDotted(n: nat)
    requires n <= |SplitDots([])|
    ensures Dotted(SplitDots([])[n..]) == []
  {
  }

  lemma FqdnBefore(a: Text, b: Text)
    requires IsFqdn(a) && (b == [] || IsFqdn(b))
    ensures IsFqdn(a + b)
  {
    hide IsFqdn;
    if b == [] {
      assert a + b == a;
    } else {
      FqdnConcat(a, b);
    }
  }

  lemma PresentText(n: Name)
    requires !IsZero(n)
    ensures IsFqdn(n.text) && n.text != []
    ensures !IsRoot(n) ==> Labels(n) == SplitDots(n.text) && Dotted(Labels(n)) == n.text && Labels(n) != []
  {
    PresentNameShape(n);
    FqdnEndsInDot(n.text);
    DottedUndoesSplit(n.text);
  }

  lemma RootHasNoLabels(n: Name)
    ensures IsRoot(n) ==> Labels(n) == []
  {
  }

  lemma {:induction false} SuffixIsText(parent: Name, child: Name)
    requires Contains(parent, child) && !IsRoot(parent)
    ensures child == parent || Extends(parent.text, child.text)
  {
    hide Labels, SplitDots, IsFqdn;
    PresentText(parent);
    PresentText(child);
    RootHasNoLabels(child);
    var n := CountLabel(child) - CountLabel(parent);
    var x := LastLabels(child.text, n);
    assert child.text == x + parent.text;
    if n > 0 {
      FqdnIff(x);
      FqdnEndsInDot(x);
      assert child.text[|x|..] == parent.text && child.text[..|x|] == x;
    } else {
      assert child.text == parent.text;
    }
  }

  lemma {:induction false} TextIsSuffix(parent: Name, child: Name)
    requires !IsZero(parent) && !IsZero(child) && !IsRoot(parent) && Extends(parent.text, child.text)
    ensures Contains(parent, child)
  {
    hide Labels, SplitDots, IsFqdn;
    PresentText(parent);
    PresentText(child);
    var x := child.text[..|child.text| - |parent.text|];
    assert child.text == x + parent.text;
    assert |x| + |parent.text| > 1;
    FqdnIff(x);
    SplitConcat(x, parent.text);
    assert Labels(child) == SplitDots(x) + Labels(parent);
  }

  predicate ContainsText(parent: Text, child: Text) {
    parent != [] && child != [] && (parent == "." || child == parent || Extends(parent, child))
  }

  /** A name contains itself and every name that puts whole labels before it; the root contains every name. */
  lemma ContainsIff(parent: Name, child: Name)
    ensures Contains(parent, child) <==> ContainsText(parent.text, child.text)
  {
    hide IsFqdn, SplitDots;
    if !IsZero(parent) && !IsZero(child) && !IsRoot(parent) {
      if Contains(parent, child) {
        SuffixIsText(parent, child);
      }
      if Extends(parent.text, child.text) {
        TextIsSuffix(parent, child);
      }
    }
  }

  /** A scope contains the names at and below its domains. */
  lemma ScopeContainsIff(scope: Scope, name: Name)
    ensures scope.Contains(name) <==> exists d <- scope.domains :: ContainsText(d.text, name.text)
  {
    hide Contains, ContainsText;
    LongestMatchFindsOne(scope.domains, name);
    forall d: Name {
      ContainsIff(d, name);
    }
  }

  lemma LongerText(a: Name, b: Name)
    requires ContainsText(a.text, b.text) && a != b
    ensures |a.text| < |b.text|
  {
    hide IsFqdn;
    if IsRoot(a) {
      PresentText(b);
      FqdnEndsInDot(b.text);
    }
  }

  /** Of two names that contain a third, the one with more labels has the longer text. */
  lemma LongerIsDeeper(a: Name, b: Name, name: Name)
    requires Contains(a, name) && Contains(b, name)
    ensures CountLabel(a) <= CountLabel(b) <==> |a.text| <= |b.text|
  {
    hide SplitDots, IsFqdn, Contains;
    if a != b {
      if CountLabel(a) <= CountLabel(b) {
        AncestorsAreComparable(a, b, name);
        ContainsIff(a, b);
        LongerText(a, b);
      } else {
        AncestorsAreComparable(b, a, name);
        ContainsIff(b, a);
        LongerText(b, a);
      }
    }
  }

  /** A name has an owner exactly when it is a listed zone or below one. */
  lemma OwnedIff(zones: seq<Zone>, name: Name)
    ensures OwnerOf(zones, name).Some? <==> exists z <- zones :: ContainsText(z.name.text, name.text)
  {
    hide Contains, ContainsText, OwnerOf;
    NoOwnerMeansNoZone(zones, name);
    forall z <- zones ensures ContainsText(z.name.text, name.text) <==> Contains(z.name, name)
      ensures Contains(z.name, name) ==> z.name in ZoneNames(zones)
    {
      ContainsIff(z.name, name);
      AbsentContainsNothing(z.name, name);
    }
  }

  lemma AbsentContainsNothing(parent: Name, child: Name)
    ensures Contains(parent, child) ==> !IsZero(parent)
  {
  }

  /** Among the zones at or above a name, the owner is the first with the longest name. */
  lemma OwnerHasLongestText(zones: seq<Zone>, name: Name, z: Zone)
    ensures OwnerOf(zones, name) == Some(z) <==>
            && FirstNamed(zones, z.name) == Some(z) && ContainsText(z.name.text, name.text)
            && forall y <- zones :: ContainsText(y.name.text, name.text) ==> |y.name.text| <= |z.name.text|
  {
    hide Contains, ContainsText, OwnerOf, FirstNamed;
    OwnerIsDeepest(zones, name, z);
    FirstNamedFinds(zones, z.name);
    ContainsIff(z.name, name);
    AbsentContainsNothing(z.name, name);
    forall y: Zone
      ensures Contains(y.name, name) <==> ContainsText(y.name.text, name.text)
      ensures Contains(y.name, name) && Contains(z.name, name) ==>
                !IsZero(y.name) && (CountLabel(y.name) <= CountLabel(z.name) <==> |y.name.text| <= |z.name.text|)
    {
      ContainsIff(y.name, name);
      AbsentContainsNothing(y.name, name);
      if Contains(y.name, name) && Contains(z.name, name) {
        LongerIsDeeper(y.name, z.name, name);
      }
    }
    ZonesByName(zones, z, name);
  }

  /** Every zone name is the name of a listed zone, and the other way round. */
  lemma ZonesByName(zones: seq<Zone>, z: Zone, name: Name)
    ensures (forall e <- ZoneNames(zones) :: Contains(e, name) ==> CountLabel(e) <= CountLabel(z.name)) <==>
            (forall y <- zones :: Contains(y.name, name) ==> CountLabel(y.name) <= CountLabel(z.name))
  {
    forall y <- zones ensures Contains(y.name, name) ==> y.name in ZoneNames(zones) {
    }
  }
}
