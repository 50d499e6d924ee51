/**
  The style class string of a grid cell: a list of class names joined by
  single spaces, and the splitting that reads the names back.
*/
module DayStyle {
  import opened CalendarTypes

  const Selected: string := "slds-is-selected"
  const Today: string := "slds-is-today"
  const AdjacentMonth: string := "slds-day_adjacent-month"

  /** A class name: non-empty and free of the separator. */
  predicate IsClassName(s: string) {
    |s| > 0 && ' ' !in s
  }

  /**
    The class names of a cell, in the order they are pushed: a cell of an
    adjacent month is marked as such and nothing else; a cell of the current
    month is "selected" when it has events and "today" when it is today.
  */
  function ClassList(day: Day): (r: seq<string>)
    ensures |r| <= 2
    ensures forall k :: 0 <= k < |r| ==> IsClassName(r[k])
    ensures AdjacentMonth in r <==> !day.isCurrentMonth
    ensures Selected in r <==> day.isCurrentMonth && |day.events| > 0
    ensures Today in r <==> day.isCurrentMonth && day.isToday
    ensures forall i, j :: 0 <= i < |r| && 0 <= j < |r| && r[i] == Selected && r[j] == Today ==> i < j
    ensures forall k :: 0 <= k < |r| ==> r[k] == AdjacentMonth || r[k] == Selected || r[k] == Today
    ensures |r| == if !day.isCurrentMonth then 1 else (if |day.events| > 0 then 1 else 0) + (if day.isToday then 1 else 0)
  {
    if day.isCurrentMonth then
      (if |day.events| > 0 then [Selected] else []) + (if day.isToday then [Today] else [])
    else
      [AdjacentMonth]
  }

  /** `Array.prototype.join(" ")`. */
  function Join(names: seq<string>): (r: string)
    ensures |names| == 0 ==> r == ""
    ensures |names| > 0 ==> |names[0]| <= |r| && r[..|names[0]|] == names[0]
    ensures |names| >= 2 ==> |names[0]| < |r| && r[|names[0]|] == ' '
  {
    if |names| == 0 then ""
    else if |names| == 1 then names[0]
    else names[0] + " " + Join(names[1..])
  }

  /** The index of the first space in `s`. */
  function FirstSpace(s: string): (i: nat)
    requires ' ' in s
    ensures i < |s| && s[i] == ' '
    ensures forall k :: 0 <= k < i ==> s[k] != ' '
  {
    if s[0] == ' ' then 0 else 1 + FirstSpace(s[1..])
  }

  /** A space with no space before it is the first space. */
  lemma {:induction false} FirstSpaceAt(s: string, j: int)
    requires 0 <= j < |s| && s[j] == ' '
    requires forall k :: 0 <= k < j ==> s[k] != ' '
    ensures FirstSpace(s) == j
  {
    if j > 0 {
      FirstSpaceAt(s[1..], j - 1);
    }
  }

  /** `String.prototype.split(" ")`: the pieces between the spaces. */
  function Split(s: string): seq<string>
    decreases |s|
  {
    if ' ' !in s then [s]
    else
      var i := FirstSpace(s);
      [s[..i]] + Split(s[i + 1..])
  }

  /** Splitting a joined list of class names gives the list back. */
  lemma {:induction false} SplitJoin(names: seq<string>)
    requires |names| > 0
    requires forall k :: 0 <= k < |names| ==> IsClassName(names[k])
    ensures Split(Join(names)) == names
  {
    if |names| == 1 {
      assert Join(names) == names[0];
    } else {
      var head, rest := names[0], Join(names[1..]);
      var s := head + " " + rest;
      assert s[|head|] == ' ';
      forall k | 0 <= k < |head|
        ensures s[k] != ' '
      {
        assert s[k] == head[k] && head[k] in head;
      }
      FirstSpaceAt(s, |head|);
      var i := FirstSpace(s);
      assert s[..i] == head;
      assert s[i + 1..] == rest;
      SplitJoin(names[1..]);
      assert names == [head] + names[1..];
    }
  }

  /** No class name joins to the empty string. */
  lemma {:induction false} JoinEmpty(names: seq<string>)
    requires forall k :: 0 <= k < |names| ==> IsClassName(names[k])
    ensures Join(names) == "" <==> names == []
  {
    if |names| >= 2 {
      assert |Join(names)| >= |names[0]| + 1;
    }
  }

  /** The style class string of a cell (`_setDayCss`). */
  function DayCss(day: Day): string {
    Join(ClassList(day))
  }

  /**
    What the style string says: it is empty exactly for a plain cell of the
    current month, and otherwise it splits into the class names of the cell.
  */
  lemma DayCssClasses(day: Day)
    ensures DayCss(day) == "" <==> day.isCurrentMonth && |day.events| == 0 && !day.isToday
    ensures DayCss(day) != "" ==> Split(DayCss(day)) == ClassList(day)
  {
    JoinEmpty(ClassList(day));
    if ClassList(day) != [] {
      SplitJoin(ClassList(day));
    }
  }

  /** The adjacent-month class is the whole string exactly for cells outside the current month. */
  lemma AdjacentMonthCss(day: Day)
    ensures DayCss(day) == AdjacentMonth <==> !day.isCurrentMonth
  {
    if day.isCurrentMonth {
      // the strings a current-month cell can get all differ in length from it
      var names := ClassList(day);
      assert |Selected| == 16 && |Today| == 13 && |AdjacentMonth| == 23;
      if |names| == 2 {
        assert names[0] == Selected && names[1..] == [Today];
        assert Join(names[1..]) == Today;
        assert |DayCss(day)| == 30;
      }
    }
  }
}
