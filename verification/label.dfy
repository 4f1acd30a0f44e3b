/** The axis label for a measure: the measure's camel-case field name with a
    space put between every lowercase ASCII letter and the uppercase ASCII
    letter right after it, as a global replacement of the pattern
    "one letter a-z, then one letter A-Z" by the two letters with a space
    between them. */
module Label {

  predicate IsLower(c: char)
  {
    'a' <= c <= 'z'
  }

  predicate IsUpper(c: char)
  {
    'A' <= c <= 'Z'
  }

  /** A lowercase letter at `i` is followed at once by an uppercase letter. */
  predicate BoundaryAt(s: string, i: nat)
  {
    i + 1 < |s| && IsLower(s[i]) && IsUpper(s[i + 1])
  }

  /** How many positions of `s` start a boundary. */
  function BoundaryCount(s: string): nat
  {
    if |s| < 2 then 0 else (if BoundaryAt(s, 0) then 1 else 0) + BoundaryCount(s[1..])
  }

  /** The global replacement as the pattern matcher performs it: try a match
      at the front; on success emit the two letters with a space between
      them and resume after the match, otherwise emit one character and
      resume at the next. The label is one character longer per boundary
      and starts with the same character. */
  function MeasureLabel(s: string): (r: string)
    ensures |r| == |s| + BoundaryCount(s)
    ensures |s| > 0 ==> r[0] == s[0]
    decreases |s|
  {
    if |s| < 2 then s
    else if BoundaryAt(s, 0) then
      assert s[1..][1..] == s[2..];
      [s[0], ' ', s[1]] + MeasureLabel(s[2..])
    else
      [s[0]] + MeasureLabel(s[1..])
  }

  /** Reference definition, position by position: every character is
      copied, and a space follows each one that starts a boundary. */
  function Spaced(s: string): string
  {
    if |s| == 0 then []
    else if BoundaryAt(s, 0) then [s[0], ' '] + Spaced(s[1..])
    else [s[0]] + Spaced(s[1..])
  }

  /** The replacement misses no boundary: the uppercase letter of a match
      can never start another match, so resuming after the match loses
      nothing, and the scan agrees with the reference definition. */
  lemma {:induction false} MeasureLabelIsSpaced(s: string)
    ensures MeasureLabel(s) == Spaced(s)
    decreases |s|
  {
    if |s| == 0 {
    } else if |s| == 1 {
      assert Spaced(s) == [s[0]] + Spaced(s[1..]);
      assert Spaced(s[1..]) == [];
    } else if BoundaryAt(s, 0) {
      MeasureLabelIsSpaced(s[2..]);
      SpacedAtBoundary(s);
    } else {
      MeasureLabelIsSpaced(s[1..]);
      assert Spaced(s) == [s[0]] + Spaced(s[1..]);
    }
  }

  /** At a boundary the reference definition emits the two letters with a
      space between them, as one match of the pattern does. */
  lemma SpacedAtBoundary(s: string)
    requires BoundaryAt(s, 0)
    ensures Spaced(s) == [s[0], ' ', s[1]] + Spaced(s[2..])
  {
    var rest := Spaced(s[2..]);
    assert s[1..][1..] == s[2..];
    assert !BoundaryAt(s[1..], 0);
    assert Spaced(s[1..]) == [s[1]] + rest;
    assert Spaced(s) == [s[0], ' '] + ([s[1]] + rest);
    assert [s[0], ' '] + ([s[1]] + rest) == [s[0], ' ', s[1]] + rest;
  }

  lemma {:induction false} SpacedLength(s: string)
    ensures |Spaced(s)| == |s| + BoundaryCount(s)
    decreases |s|
  {
    if |s| > 0 {
      SpacedLength(s[1..]);
    }
  }

  /** Where each character of `s` lands in `Spaced(s)`: shifted right by the
      number of boundaries before it, and followed by a space exactly when it
      starts a boundary. */
  lemma {:induction false} SpacedLayout(s: string, i: nat)
    requires i < |s|
    ensures var p := i + BoundaryCount(s[..i + 1]);
      && p < |Spaced(s)| && Spaced(s)[p] == s[i]
      && (p + 1 < |Spaced(s)| ==> (Spaced(s)[p + 1] == ' ' <==> BoundaryAt(s, i) || (i + 1 < |s| && s[i + 1] == ' ')))
    decreases |s|
  {
    SpacedLength(s);
    var head := if BoundaryAt(s, 0) then [s[0], ' '] else [s[0]];
    assert Spaced(s) == head + Spaced(s[1..]);
    if i == 0 {
      assert BoundaryCount(s[..1]) == 0;
      if 1 < |Spaced(s)| && !BoundaryAt(s, 0) {
        assert 1 < |s|;
        SpacedLayout(s[1..], 0);
        assert s[1..][..1] == s[1..2];
        assert BoundaryCount(s[1..2]) == 0;
      }
    } else {
      SpacedLayout(s[1..], i - 1);
      assert s[..i + 1][1..] == s[1..][..i];
      assert BoundaryAt(s[..i + 1], 0) == BoundaryAt(s, 0);
      assert BoundaryAt(s[1..], i - 1) == BoundaryAt(s, i);
    }
  }

  /** The label puts one space at each boundary and changes nothing else:
      it is longer by the number of boundaries, each character of the name
      appears in it in order (shifted by the boundaries before it), and
      the character after it is a space exactly when it starts a boundary
      or when the name itself has a space there. */
  lemma MeasureLabelLayout(s: string, i: nat)
    requires i < |s|
    ensures |MeasureLabel(s)| == |s| + BoundaryCount(s)
    ensures var p := i + BoundaryCount(s[..i + 1]);
      && p < |MeasureLabel(s)| && MeasureLabel(s)[p] == s[i]
      && (p + 1 < |MeasureLabel(s)| ==>
            (MeasureLabel(s)[p + 1] == ' ' <==> BoundaryAt(s, i) || (i + 1 < |s| && s[i + 1] == ' ')))
  {
    MeasureLabelIsSpaced(s);
    SpacedLayout(s, i);
  }

  /** A name without a boundary is its own label. */
  lemma {:induction false} MeasureLabelIdentity(s: string)
    requires forall i: nat :: !BoundaryAt(s, i)
    ensures MeasureLabel(s) == s
    decreases |s|
  {
    if |s| >= 2 {
      assert !BoundaryAt(s, 0);
      forall i: nat ensures !BoundaryAt(s[1..], i) {
        assert !BoundaryAt(s, i + 1);
      }
      MeasureLabelIdentity(s[1..]);
    }
  }

  /** The label itself has no boundary left, so labelling twice is the same
      as labelling once. */
  lemma {:induction false} MeasureLabelNoBoundary(s: string)
    ensures forall i: nat :: !BoundaryAt(MeasureLabel(s), i)
    decreases |s|
  {
    var r := MeasureLabel(s);
    if |s| < 2 {
    } else if BoundaryAt(s, 0) {
      var rest := MeasureLabel(s[2..]);
      MeasureLabelNoBoundary(s[2..]);
      assert r == [s[0], ' ', s[1]] + rest;
      forall i: nat ensures !BoundaryAt(r, i) {
        if i >= 3 {
          assert !BoundaryAt(rest, i - 3);
        }
      }
    } else {
      var rest := MeasureLabel(s[1..]);
      MeasureLabelNoBoundary(s[1..]);
      assert r == [s[0]] + rest;
      forall i: nat ensures !BoundaryAt(r, i) {
        if i >= 1 {
          assert !BoundaryAt(rest, i - 1);
        }
      }
    }
  }

  lemma MeasureLabelIdempotent(s: string)
    ensures MeasureLabel(MeasureLabel(s)) == MeasureLabel(s)
  {
    MeasureLabelNoBoundary(s);
    MeasureLabelIdentity(MeasureLabel(s));
  }

  // ---------------------------------------------------------------------
  // Undoing the label
  // ---------------------------------------------------------------------

  /** A space stands between a lowercase and an uppercase letter at `i`. */
  predicate SpacedBoundaryAt(t: string, i: nat)
  {
    i + 2 < |t| && IsLower(t[i]) && t[i + 1] == ' ' && IsUpper(t[i + 2])
  }

  /** Delete every space that stands between a lowercase and an uppercase
      letter. */
  function Unlabel(t: string): string
    decreases |t|
  {
    if |t| < 3 then t
    else if SpacedBoundaryAt(t, 0) then [t[0]] + Unlabel(t[2..])
    else [t[0]] + Unlabel(t[1..])
  }

  lemma UnlabelNotLower(c: char, u: string)
    requires !IsLower(c)
    ensures Unlabel([c] + u) == [c] + Unlabel(u)
  {
    assert ([c] + u)[1..] == u;
  }

  lemma LabelAfterSpace(s: string)
    requires |s| >= 2 && s[0] == ' '
    ensures |MeasureLabel(s)| >= 2 && MeasureLabel(s)[1] == s[1]
  {
    assert s[1..][0] == s[1];
  }

  /** Deleting the spaces the label inserted gives the name back, provided
      the name had no such space of its own. */
  lemma {:induction false} UnlabelMeasureLabel(s: string)
    requires forall i: nat :: !SpacedBoundaryAt(s, i)
    ensures Unlabel(MeasureLabel(s)) == s
    decreases |s|
  {
    if |s| < 2 {
    } else if BoundaryAt(s, 0) {
      var rest := MeasureLabel(s[2..]);
      forall i: nat ensures !SpacedBoundaryAt(s[2..], i) {
        assert !SpacedBoundaryAt(s, i + 2);
      }
      UnlabelMeasureLabel(s[2..]);
      var t := [s[0], ' ', s[1]] + rest;
      assert t[2..] == [s[1]] + rest;
      UnlabelNotLower(s[1], rest);
      assert s == [s[0], s[1]] + s[2..];
    } else {
      var rest := MeasureLabel(s[1..]);
      forall i: nat ensures !SpacedBoundaryAt(s[1..], i) {
        assert !SpacedBoundaryAt(s, i + 1);
      }
      UnlabelMeasureLabel(s[1..]);
      var t := [s[0]] + rest;
      assert t[1..] == rest;
      if |t| >= 3 && IsLower(s[0]) && s[1] == ' ' {
        LabelAfterSpace(s[1..]);
        assert s[1..][1] == s[2];
        assert !SpacedBoundaryAt(s, 0);
      }
      assert Unlabel(t) == [s[0]] + Unlabel(rest);
      assert s == [s[0]] + s[1..];
    }
  }

  // ---------------------------------------------------------------------
  // Labels of names made of words
  // ---------------------------------------------------------------------

  /** No lowercase letter of `x` is followed by an uppercase one, checked
      from the front. */
  predicate Unbroken(x: string)
    decreases |x|
  {
    |x| < 2 || (!BoundaryAt(x, 0) && Unbroken(x[1..]))
  }

  /** A piece without a boundary is its own reference label. */
  lemma {:induction false} UnbrokenSpaced(x: string)
    requires Unbroken(x)
    ensures Spaced(x) == x
    decreases |x|
  {
    if |x| >= 2 {
      UnbrokenSpaced(x[1..]);
      assert x == [x[0]] + x[1..];
    } else if |x| == 1 {
      assert Spaced(x[1..]) == [];
    }
  }

  /** Two pieces joined where a lowercase letter meets an uppercase one:
      the reference label puts one space at the junction. */
  lemma {:induction false} SpacedJoin(a: string, b: string)
    requires |a| > 0 && |b| > 0 && IsLower(a[|a| - 1]) && IsUpper(b[0])
    ensures Spaced(a + b) == Spaced(a) + [' '] + Spaced(b)
    decreases |a|
  {
    if |a| == 1 {
      assert a + b == [a[0]] + b;
      assert BoundaryAt(a + b, 0);
      assert Spaced(a) == [a[0]];
    } else {
      assert (a + b)[1..] == a[1..] + b;
      assert BoundaryAt(a + b, 0) == BoundaryAt(a, 0);
      SpacedJoin(a[1..], b);
    }
  }

  /** Three boundary-free words, each meeting the next at a boundary, are
      labelled with one space between consecutive words. */
  lemma ThreeWordLabel(a: string, b: string, c: string)
    requires Unbroken(a) && Unbroken(b) && Unbroken(c)
    requires |a| > 0 && |b| > 0 && |c| > 0
    requires IsLower(a[|a| - 1]) && IsUpper(b[0]) && IsLower(b[|b| - 1]) && IsUpper(c[0])
    ensures MeasureLabel(a + b + c) == a + [' '] + b + [' '] + c
  {
    var bc := b + c;
    UnbrokenSpaced(a);
    UnbrokenSpaced(b);
    UnbrokenSpaced(c);
    SpacedJoin(b, c);
    assert Spaced(bc) == b + [' '] + c;
    assert bc[0] == b[0];
    SpacedJoin(a, bc);
    assert a + b + c == a + bc;
    MeasureLabelIsSpaced(a + bc);
    assert a + [' '] + (b + [' '] + c) == a + [' '] + b + [' '] + c;
  }

  /** The label of the chart's chosen field name. */
  lemma AverageCityLabel()
    ensures MeasureLabel("AverageCityMPG") == "Average City MPG"
  {
    ThreeWordLabel("Average", "City", "MPG");
    AverageCityWords();
  }

  /** The chosen field name and its label, cut into words. */
  lemma AverageCityWords()
    ensures "Average" + "City" + "MPG" == "AverageCityMPG"
    ensures "Average" + [' '] + "City" + [' '] + "MPG" == "Average City MPG"
  {
  }
}
