/**
 The version-numbering helpers of the notebook support module:
 `check_and_update` and `get_latest` over the model registry's
 `show_models` table, and `dataset_check_and_update` over a dataset lookup.
 */
module UsefulFns {
  import opened Wrappers
  import opened PyText
  import opened PyOrder
  import opened VersionTags

  /** One row of the `show_models` table: a model's name and its `versions`
      column, already parsed into a list of tags. */
  datatype Row = Row(name: string, versions: seq<string>)

  /** `not df[df["name"] == name].empty`: some row carries exactly this name. */
  predicate HasModel(df: seq<Row>, name: string)
    ensures HasModel(df, name) ==> df != []
  {
    exists i :: 0 <= i < |df| && df[i].name == name
  }

  /** `[version for sublist in df["versions"] for version in sublist]`: the
      tags of every row, row after row. */
  function Flatten(df: seq<Row>): (all: seq<string>)
    ensures forall x :: x in all <==> exists i :: 0 <= i < |df| && x in df[i].versions
    ensures all == [] <==> forall i :: 0 <= i < |df| ==> df[i].versions == []
    decreases |df|
  {
    if df == [] then []
    else
      var rest := Flatten(df[1..]);
      assert forall i :: 0 < i < |df| ==> df[i] == df[1..][i - 1];
      assert forall x :: x in rest <==> exists i :: 0 < i < |df| && x in df[i].versions by {
        forall x | x in rest
          ensures exists i :: 0 < i < |df| && x in df[i].versions
        {
          var k :| 0 <= k < |df[1..]| && x in df[1..][k].versions;
          assert df[k + 1] == df[1..][k];
        }
      }
      df[0].versions + rest
  }

  /** The name `check_and_update` looks up: the text after the last "." of a
      qualified name, the name itself otherwise. */
  function ModelKey(modelName: string): (key: string)
    ensures '.' !in key
    ensures |key| <= |modelName| && key == modelName[|modelName| - |key|..]
    ensures |key| < |modelName| ==> modelName[|modelName| - |key| - 1] == '.'
  {
    if '.' in modelName then LastSegment(modelName, '.') else modelName
  }

  /** `check_and_update(df, model_name)`: "V_1" when the table is empty or no
      row has the (unqualified) model name; otherwise the greatest tag of all
      rows, incremented. */
  function CheckAndUpdate(df: seq<Row>, modelName: string): (r: Result<string, VersionError>)
    ensures !HasModel(df, ModelKey(modelName)) ==> r == Ok(FirstVersion)
    ensures HasModel(df, ModelKey(modelName)) ==> r == NextVersion(Flatten(df))
  {
    var key := ModelKey(modelName);
    if |df| == 0 then Ok(FirstVersion)
    else if !HasModel(df, key) then Ok(FirstVersion)
    else NextVersion(Flatten(df))
  }

  /** `dataset_check_and_update(session, name)` with the dataset lookup given
      as its outcome: `None` for a dataset that does not exist, otherwise its
      list of versions. */
  function DatasetCheckAndUpdate(lookup: Option<seq<string>>): (r: Result<string, VersionError>)
    ensures lookup == None || lookup == Some([]) ==> r == Ok(FirstVersion)
    ensures lookup.Some? && lookup.value != [] ==> r == NextVersion(lookup.value)
    ensures r != Err(EmptyVersionList)
  {
    match lookup
    case None => Ok(FirstVersion)
    case Some(versions) =>
      if |versions| == 0 then Ok(FirstVersion) else NextVersion(versions)
  }

  /** `get_latest(df, model_name)`: "V_1" when the table is empty or no row has
      exactly this name; otherwise the greatest tag of the FIRST row,
      re-rendered without incrementing. */
  function GetLatest(df: seq<Row>, modelName: string): (r: Result<string, VersionError>)
    ensures !HasModel(df, modelName) ==> r == Ok(FirstVersion)
    ensures HasModel(df, modelName) ==> r == Latest(df[0].versions)
  {
    if |df| == 0 then Ok(FirstVersion)
    else if !HasModel(df, modelName) then Ok(FirstVersion)
    else Latest(df[0].versions)
  }

  /** For a model that is found, the result is the successor of the greatest
      tag over ALL rows, not only the rows of that model; the table failing
      with an index error exactly when no row has any tag. */
  lemma CheckAndUpdateFound(df: seq<Row>, modelName: string)
    requires HasModel(df, ModelKey(modelName))
    ensures CheckAndUpdate(df, modelName) == Err(EmptyVersionList) <==>
      forall i :: 0 <= i < |df| ==> df[i].versions == []
    ensures CheckAndUpdate(df, modelName).Ok? ==> exists g :: (
      && g in Flatten(df)
      && (forall x :: x in Flatten(df) ==> LexLe(x, g))
      && ParseTag(g).Ok?
      && ParseTag(CheckAndUpdate(df, modelName).value) == Ok(Successor(ParseTag(g).value)))
  {
    var all := Flatten(df);
    var r := CheckAndUpdate(df, modelName);
    assert r == NextVersion(all);
    assert r == Err(EmptyVersionList) <==> all == [] by {
      if all != [] {
        var g := ParseTag(Greatest(all));
        assert GreatestTag(all) == g;
        assert r.Err? ==> r.error == g.error;
      }
    }
    if r.Ok? {
      NextVersionIsSuccessorOfGreatest(all);
    }
  }

  /** A qualified name "db.schema.model" is looked up as "model". */
  lemma ModelKeyStripsQualifier(qualifier: string, model: string)
    requires '.' !in model
    ensures ModelKey(qualifier + "." + model) == model == ModelKey(model)
  {
    LastSegmentAfterSeparator(qualifier, '.', model);
    assert qualifier + "." + model == qualifier + ['.'] + model;
  }

  /** So a model's next version is the same whether its name is qualified or not. */
  lemma CheckAndUpdateStripsQualifier(df: seq<Row>, qualifier: string, model: string)
    requires '.' !in model
    ensures CheckAndUpdate(df, qualifier + "." + model) == CheckAndUpdate(df, model)
  {
    ModelKeyStripsQualifier(qualifier, model);
  }

  /** Reordering or repeating rows of the table does not change the result,
      because the tags are sorted before the greatest one is taken. */
  lemma CheckAndUpdateIgnoresRowOrder(df1: seq<Row>, df2: seq<Row>, modelName: string)
    requires forall row :: row in df1 <==> row in df2
    ensures CheckAndUpdate(df1, modelName) == CheckAndUpdate(df2, modelName)
  {
    var key := ModelKey(modelName);
    assert HasModel(df1, key) <==> HasModel(df2, key) by {
      if HasModel(df1, key) {
        var i :| 0 <= i < |df1| && df1[i].name == key;
        assert df1[i] in df2;
      }
      if HasModel(df2, key) {
        var i :| 0 <= i < |df2| && df2[i].name == key;
        assert df2[i] in df1;
      }
    }
    assert forall x :: x in Flatten(df1) <==> x in Flatten(df2) by {
      forall x
        ensures x in Flatten(df1) ==> x in Flatten(df2)
        ensures x in Flatten(df2) ==> x in Flatten(df1)
      {
        if x in Flatten(df1) {
          var i :| 0 <= i < |df1| && x in df1[i].versions;
          assert df1[i] in df2;
        }
        if x in Flatten(df2) {
          var i :| 0 <= i < |df2| && x in df2[i].versions;
          assert df2[i] in df1;
        }
      }
    }
    RulesIgnoreOrder(Flatten(df1), Flatten(df2));
  }

  /** The dataset rule never fails for want of versions, and its result does
      not depend on the order the versions are listed in. */
  lemma DatasetIgnoresOrder(a: seq<string>, b: seq<string>)
    requires forall x :: x in a <==> x in b
    ensures DatasetCheckAndUpdate(Some(a)) == DatasetCheckAndUpdate(Some(b))
  {
    RulesIgnoreOrder(a, b);
    assert a == [] <==> b == [] by {
      if a != [] { assert a[0] in b; }
      if b != [] { assert b[0] in a; }
    }
  }

  /** A table has every model named in one of its rows. */
  lemma HasModelAt(df: seq<Row>, i: nat)
    requires i < |df|
    ensures HasModel(df, df[i].name)
  {
  }

  /** A two-row table flattens to the first row's tags, then the second's. */
  lemma FlattenTwoRows(a: Row, b: Row)
    ensures Flatten([a, b]) == a.versions + b.versions
  {
    assert [a, b][1..] == [b];
    assert [b][1..] == [];
  }

  /** With two models, `check_and_update` for "B" draws on the tags of "A"
      as well. */
  lemma CheckAndUpdateReadsEveryRow()
    ensures CheckAndUpdate([Row("A", ["V_5"]), Row("B", ["V_1"])], "B") == Ok("V_6")
  {
    var df := [Row("A", ["V_5"]), Row("B", ["V_1"])];
    HasModelAt(df, 1);
    assert ModelKey("B") == "B";
    FlattenTwoRows(df[0], df[1]);
    NextVersionTakesGreatestNotLast();
  }

  /** With two models, `get_latest` for "B" reads only the first row, which
      belongs to "A". */
  lemma GetLatestReadsFirstRow()
    ensures GetLatest([Row("A", ["V_5"]), Row("B", ["V_1"])], "B") == Ok("V_5")
  {
    var df := [Row("A", ["V_5"]), Row("B", ["V_1"])];
    HasModelAt(df, 1);
    var t := VersionTag("V", 5);
    LexLeReflexive("V_5");
    GreatestUnique(["V_5"], "V_5");
    assert "V_5" == Render(t);
    ParseRender(t);
  }

  /** A one-model table: the next version after "RUN_3" is "RUN_4". */
  lemma CheckAndUpdateSingleModel()
    ensures CheckAndUpdate([Row("M", ["RUN_3"])], "M") == Ok("RUN_4")
  {
    var df := [Row("M", ["RUN_3"])];
    HasModelAt(df, 0);
    assert df[1..] == [];
    assert Flatten(df) == ["RUN_3"];
    assert ModelKey("M") == "M";
    NextVersionKeepsPrefix();
  }

  /** `check_and_update` looks "<qualifier>.M" up as "M", whatever the qualifier. */
  lemma CheckAndUpdateQualifiedName(qualifier: string)
    ensures CheckAndUpdate([Row("M", ["RUN_3"])], qualifier + "." + "M") == Ok("RUN_4")
  {
    CheckAndUpdateSingleModel();
    CheckAndUpdateStripsQualifier([Row("M", ["RUN_3"])], qualifier, "M");
  }

  /** `get_latest` compares the whole name, so "DB.SCHEMA.M" does not find
      the row of "M". */
  lemma GetLatestQualifiedName()
    ensures GetLatest([Row("M", ["RUN_3"])], "DB.SCHEMA.M") == Ok(FirstVersion)
  {
    var df := [Row("M", ["RUN_3"])];
    assert df[0].name != "DB.SCHEMA.M";
  }
}
