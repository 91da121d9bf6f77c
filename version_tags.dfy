/**
 Version tags of the form `<prefix>_<n>` and the two rules the registry
 helpers apply to a list of them: "greatest tag plus one" (next version) and
 "greatest tag re-rendered" (latest version). "Greatest" is Python's string
 order, because the helpers sort the tags as strings.
 */
module VersionTags {
  import opened Wrappers
  import opened PyText
  import opened PyOrder

  /** The separator between a tag's prefix and its number. */
  const Separator: char := '_'

  /** The tag handed out when nothing is registered yet. */
  const FirstVersion: string := "V_1"

  /** A parsed tag: the text before the last separator and the number after it. */
  datatype VersionTag = VersionTag(prefix: string, number: nat)

  /** Why a version cannot be worked out; each is an exception in Python. */
  datatype VersionError =
    | NoUnderscore(tag: string)       // `prefix, num = tag.rsplit("_", 1)` fails to unpack
    | NonIntegerSuffix(tag: string)   // `int(num)` raises ValueError
    | EmptyVersionList                // `lst[-1]` on an empty list raises IndexError

  /** `f"{prefix}_{number}"`: what follows the last separator is the number in
      decimal, so a rendered tag parses back to the same number. */
  function Render(t: VersionTag): (r: string)
    ensures LastSegment(r, Separator) == NatToString(t.number)
  {
    assert !IsDigit(Separator);
    LastSegmentAfterSeparator(t.prefix, Separator, NatToString(t.number));
    t.prefix + [Separator] + NatToString(t.number)
  }

  /** `prefix, num = tag.rsplit("_", 1)` followed by `int(num)`, with the
      error each step raises. */
  function ParseTag(s: string): (r: Result<VersionTag, VersionError>)
    ensures r.Err? ==> r.error == NoUnderscore(s) || r.error == NonIntegerSuffix(s)
    ensures r == Err(NoUnderscore(s)) <==> Separator !in s
  {
    match RSplitLast(s, Separator)
    case None => Err(NoUnderscore(s))
    case Some((prefix, digits)) =>
      match ParseNat(digits)
      case None => Err(NonIntegerSuffix(s))
      case Some(n) => Ok(VersionTag(prefix, n))
  }

  /** What parsing a tag yields: the unpacking error exactly when there is no
      separator, the integer error exactly when the text after the last
      separator is not a decimal number, and otherwise the text before the
      last separator with the value of the digits after it. */
  lemma ParseTagCases(s: string)
    ensures ParseTag(s).Err? ==> ParseTag(s).error == NoUnderscore(s) || ParseTag(s).error == NonIntegerSuffix(s)
    ensures ParseTag(s) == Err(NoUnderscore(s)) <==> Separator !in s
    ensures ParseTag(s) == Err(NonIntegerSuffix(s)) <==> Separator in s && !IsDecimal(LastSegment(s, Separator))
    ensures ParseTag(s).Ok? ==>
      && IsDecimal(LastSegment(s, Separator))
      && s == ParseTag(s).value.prefix + [Separator] + LastSegment(s, Separator)
      && ParseTag(s).value.number == DecimalValue(LastSegment(s, Separator))
  {
    if Separator in s {
      var (prefix, digits) := RSplitLast(s, Separator).value;
      LastSegmentAfterSeparator(prefix, Separator, digits);
    }
  }

  /** Rendering a tag and parsing it back gives the same tag, whatever
      separators its prefix holds. */
  lemma ParseRender(t: VersionTag)
    ensures ParseTag(Render(t)) == Ok(t)
  {
    var digits := NatToString(t.number);
    assert !IsDigit(Separator);
    RSplitJoin(t.prefix, Separator, digits);
    ParseNatToString(t.number);
  }

  /** Re-rendering a parsed tag reproduces it exactly when its number has no
      leading zeros. */
  lemma RenderParse(s: string)
    requires ParseTag(s).Ok?
    ensures Render(ParseTag(s).value) == s <==> IsCanonicalDecimal(LastSegment(s, Separator))
  {
    ParseTagCases(s);
    var t := ParseTag(s).value;
    var digits := LastSegment(s, Separator);
    var tail := NatToString(t.number);
    NatToStringOfDecimal(digits);
    assert s == t.prefix + [Separator] + digits;
    assert LastSegment(Render(t), Separator) == tail;
  }

  /** The greatest tag of a list, parsed: `sorted(lst)[-1]` then the split. */
  function GreatestTag(tags: seq<string>): (r: Result<VersionTag, VersionError>)
    ensures r == Err(EmptyVersionList) <==> tags == []
    ensures tags != [] ==> r == ParseTag(Greatest(tags))
  {
    if tags == [] then Err(EmptyVersionList) else ParseTag(Greatest(tags))
  }

  /** The tag after `t`: same prefix, number one higher. */
  function Successor(t: VersionTag): VersionTag {
    VersionTag(t.prefix, t.number + 1)
  }

  /** The rule shared by `check_and_update` and `dataset_check_and_update`:
      the greatest tag with its number incremented. */
  function NextVersion(tags: seq<string>): (r: Result<string, VersionError>)
    ensures r.Err? <==> GreatestTag(tags).Err?
    ensures r.Err? ==> r.error == GreatestTag(tags).error
    ensures r.Ok? ==>
      ParseTag(r.value) == Ok(Successor(GreatestTag(tags).value))
    ensures r.Ok? ==> IsCanonicalDecimal(LastSegment(r.value, Separator))
  {
    match GreatestTag(tags)
    case Err(e) => Err(e)
    case Ok(g) =>
      ParseRender(Successor(g));
      Ok(Render(Successor(g)))
  }

  /** The rule of `get_latest`: the greatest tag re-rendered, not incremented. */
  function Latest(tags: seq<string>): (r: Result<string, VersionError>)
    ensures r.Err? <==> GreatestTag(tags).Err?
    ensures r.Err? ==> r.error == GreatestTag(tags).error
    ensures r.Ok? ==> ParseTag(r.value) == GreatestTag(tags)
    ensures r.Ok? ==>
      (r.value == Greatest(tags) <==> IsCanonicalDecimal(LastSegment(Greatest(tags), Separator)))
    ensures r.Ok? ==> IsCanonicalDecimal(LastSegment(r.value, Separator))
  {
    match GreatestTag(tags)
    case Err(e) => Err(e)
    case Ok(g) =>
      ParseRender(g);
      RenderParse(Greatest(tags));
      Ok(Render(g))
  }

  /** The greatest tag depends only on which tags occur. */
  lemma GreatestTagIgnoresOrder(a: seq<string>, b: seq<string>)
    requires forall x :: x in a <==> x in b
    ensures GreatestTag(a) == GreatestTag(b)
  {
    if a != [] {
      GreatestOfSameMembers(a, b);
    }
  }

  /** Both rules depend only on which tags occur: reordering or repeating the
      list changes nothing, because it is sorted first. */
  lemma RulesIgnoreOrder(a: seq<string>, b: seq<string>)
    requires forall x :: x in a <==> x in b
    ensures NextVersion(a) == NextVersion(b)
    ensures Latest(a) == Latest(b)
  {
    GreatestTagIgnoresOrder(a, b);
  }

  /** A next version, when there is one, is the successor of a listed tag
      that no listed tag exceeds in string order. */
  lemma NextVersionIsSuccessorOfGreatest(tags: seq<string>)
    ensures NextVersion(tags).Ok? ==> exists g :: (
      && g in tags
      && (forall x :: x in tags ==> LexLe(x, g))
      && ParseTag(g).Ok?
      && ParseTag(NextVersion(tags).value) == Ok(Successor(ParseTag(g).value)))
  {
    if NextVersion(tags).Ok? {
      var g := Greatest(tags);
      assert g in tags && (forall x :: x in tags ==> LexLe(x, g)) && ParseTag(g).Ok?;
    }
  }

  /** A latest version, when there is one, is a listed tag that no listed tag
      exceeds, re-rendered: it parses to the same tag. */
  lemma LatestIsGreatestRerendered(tags: seq<string>)
    ensures Latest(tags).Ok? ==> exists g :: (
      && g in tags
      && (forall x :: x in tags ==> LexLe(x, g))
      && ParseTag(Latest(tags).value) == ParseTag(g))
  {
    if Latest(tags).Ok? {
      var g := Greatest(tags);
      assert g in tags && (forall x :: x in tags ==> LexLe(x, g));
    }
  }

  /** When the greatest tag is a rendered tag `t`, the next version is the
      rendering of the tag after `t`. */
  lemma NextVersionOfGreatest(tags: seq<string>, t: VersionTag)
    requires Render(t) in tags
    requires forall x :: x in tags ==> LexLe(x, Render(t))
    ensures NextVersion(tags) == Ok(Render(Successor(t)))
  {
    GreatestUnique(tags, Render(t));
    ParseRender(t);
  }

  /** A single-digit run rolls over to two digits. */
  lemma NextVersionRollsOver()
    ensures NextVersion(["V_1", "V_2", "V_9"]) == Ok("V_10")
  {
    LexLeReflexive("V_9");
    assert LexLe("V_1", "V_9") && LexLe("V_2", "V_9");
    assert "V_9" == Render(VersionTag("V", 9)) && "V_10" == Render(VersionTag("V", 10));
    NextVersionOfGreatest(["V_1", "V_2", "V_9"], VersionTag("V", 9));
  }

  /** The prefix is kept as it is. */
  lemma NextVersionKeepsPrefix()
    ensures NextVersion(["RUN_3"]) == Ok("RUN_4")
  {
    LexLeReflexive("RUN_3");
    assert "RUN_3" == Render(VersionTag("RUN", 3)) && "RUN_4" == Render(VersionTag("RUN", 4));
    NextVersionOfGreatest(["RUN_3"], VersionTag("RUN", 3));
  }

  /** Only the last separator splits, so separators inside the prefix stay. */
  lemma NextVersionKeepsInnerSeparators()
    ensures NextVersion(["MY_MODEL_3"]) == Ok("MY_MODEL_4")
  {
    var t := VersionTag("MY_MODEL", 3);
    LexLeReflexive(Render(t));
    assert "MY_MODEL_3" == Render(t);
    assert "MY_MODEL_4" == Render(Successor(t));
    NextVersionOfGreatest([Render(t)], t);
  }

  /** The string order puts "V_2" above "V_10", so the next version is "V_3". */
  lemma NextVersionUsesStringOrder()
    ensures NextVersion(["V_10", "V_2"]) == Ok("V_3")
  {
    LexLeReflexive("V_2");
    assert LexLe("V_10", "V_2");
    assert "V_2" == Render(VersionTag("V", 2)) && "V_3" == Render(VersionTag("V", 3));
    NextVersionOfGreatest(["V_10", "V_2"], VersionTag("V", 2));
  }

  /** The greatest tag, not the last one listed, is incremented. */
  lemma NextVersionTakesGreatestNotLast()
    ensures NextVersion(["V_5", "V_1"]) == Ok("V_6")
  {
    var t := VersionTag("V", 5);
    LexLeReflexive("V_5");
    assert LexLe("V_1", "V_5");
    assert "V_5" == Render(t) && "V_6" == Render(Successor(t));
    NextVersionOfGreatest(["V_5", "V_1"], t);
  }

  /** Worked failures: no list, no separator, a suffix that is not a number. */
  lemma NextVersionErrors()
    ensures NextVersion([]) == Err(EmptyVersionList)
    ensures NextVersion(["V1"]) == Err(NoUnderscore("V1"))
    ensures NextVersion(["V_a"]) == Err(NonIntegerSuffix("V_a"))
  {
    LexLeReflexive("V1");
    GreatestUnique(["V1"], "V1");
    assert !IsDigit('_');
    LexLeReflexive("V_a");
    GreatestUnique(["V_a"], "V_a");
    LastSegmentAfterSeparator("V", Separator, "a");
    assert "V_a" == "V" + [Separator] + "a";
  }

  /** "V_007" parses to prefix "V" and number 7. */
  lemma ParseTagWithLeadingZeros()
    ensures ParseTag("V_007") == Ok(VersionTag("V", 7))
  {
    RSplitJoin("V", Separator, "007");
    assert "V_007" == "V" + [Separator] + "007";
    assert "007"[..2] == "00" && "00"[..1] == "0" && "0"[..0] == [];
    assert DecimalValue("007") == 7;
  }

  /** `get_latest` drops leading zeros: "V_007" comes back as "V_7". */
  lemma LatestDropsLeadingZeros()
    ensures Latest(["V_007"]) == Ok("V_7")
  {
    LexLeReflexive("V_007");
    GreatestUnique(["V_007"], "V_007");
    ParseTagWithLeadingZeros();
    assert Render(VersionTag("V", 7)) == "V_7";
  }

  /** Because tags are compared as strings, once "V_10" exists next to "V_9"
      the greatest tag is "V_9" and the next version handed out is "V_10",
      a tag that is already taken. */
  lemma NextVersionReissuesTag()
    ensures NextVersion(["V_9", "V_10"]) == Ok("V_10")
    ensures NextVersion(["V_9", "V_10"]).value in ["V_9", "V_10"]
  {
    LexLeReflexive("V_9");
    assert LexLe("V_10", "V_9");
    assert "V_9" == Render(VersionTag("V", 9)) && "V_10" == Render(VersionTag("V", 10));
    NextVersionOfGreatest(["V_9", "V_10"], VersionTag("V", 9));
  }

  /** Every tag of the list parsed, or the error of the first that does not parse. */
  function ParseAll(tags: seq<string>): (r: Result<seq<VersionTag>, VersionError>)
    ensures r.Ok? <==> forall i :: 0 <= i < |tags| ==> ParseTag(tags[i]).Ok?
    ensures r.Ok? ==> |r.value| == |tags| && forall i :: 0 <= i < |tags| ==> ParseTag(tags[i]) == Ok(r.value[i])
    decreases |tags|
  {
    if tags == [] then Ok([])
    else
      var head := ParseTag(tags[0]);
      var rest := ParseAll(tags[1..]);
      assert forall i :: 0 < i < |tags| ==> tags[i] == tags[1..][i - 1];
      if head.Err? then Err(head.error)
      else if rest.Err? then
        ghost var k :| 0 <= k < |tags[1..]| && ParseTag(tags[1..][k]).Err?;
        assert ParseTag(tags[k + 1]).Err?;
        Err(rest.error)
      else
        var r := [head.value] + rest.value;
        assert forall i :: 0 < i < |tags| ==> r[i] == rest.value[i - 1];
        Ok(r)
  }

  /** The first tag of the list whose number is largest. */
  function HighestNumbered(ts: seq<VersionTag>): (m: VersionTag)
    requires |ts| > 0
    ensures m in ts
    ensures forall t :: t in ts ==> t.number <= m.number
    decreases |ts|
  {
    if |ts| == 1 then ts[0]
    else
      var m := HighestNumbered(ts[1..]);
      assert forall t :: t in ts ==> t == ts[0] || t in ts[1..];
      if ts[0].number >= m.number then ts[0] else m
  }

  /** The next version by numeric maximum: the tag with the largest number,
      incremented. Every tag must parse. The result is newer than every
      existing tag, so it is never one of them. */
  function NextVersionNumeric(tags: seq<string>): (r: Result<string, VersionError>)
    ensures r.Ok? <==> tags != [] && forall x :: x in tags ==> ParseTag(x).Ok?
    ensures r.Ok? ==> ParseTag(r.value).Ok?
    ensures r.Ok? ==> forall x :: x in tags ==> ParseTag(x).value.number < ParseTag(r.value).value.number
    ensures r.Ok? ==> exists x :: x in tags && ParseTag(r.value) == Ok(Successor(ParseTag(x).value))
    ensures r.Ok? ==> r.value !in tags
  {
    if tags == [] then Err(EmptyVersionList)
    else
      match ParseAll(tags)
      case Err(e) =>
        assert exists i :: 0 <= i < |tags| && ParseTag(tags[i]).Err?;
        Err(e)
      case Ok(ts) =>
        var m := HighestNumbered(ts);
        ParseRender(Successor(m));
        var i :| 0 <= i < |ts| && ts[i] == m;
        assert ParseTag(tags[i]) == Ok(m);
        assert forall x :: x in tags ==> ParseTag(x).Ok? && ParseTag(x).value.number <= m.number by {
          forall x | x in tags
            ensures ParseTag(x).Ok? && ParseTag(x).value.number <= m.number
          {
            var j :| 0 <= j < |tags| && tags[j] == x;
            assert ts[j] in ts;
          }
        }
        Ok(Render(Successor(m)))
  }
}
