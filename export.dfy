/**
 * The download file name chosen by the `export_data` callback: `filtered_data`,
 * followed by one tag per filter that is set.
 */
module Export {
  import opened Text
  import opened Cases

  const BaseName: string := "filtered_data"

  /** `f"{kind}_{'_'.join(values)}"`. */
  function Tag(kind: string, values: seq<string>): string
  {
    kind + "_" + Join(values, "_")
  }

  /** The tag of one filter, or nothing when that filter is not set. */
  function TagIfSet(kind: string, values: seq<string>): seq<string>
  {
    if |values| > 0 then [Tag(kind, values)] else []
  }

  /** The tags of the filters that are set, in the order the source appends them. */
  function Tags(f: Filters): seq<string>
  {
    TagIfSet("Stage", f.stages) + TagIfSet("Type", f.types) +
    TagIfSet("Nationality", f.nationalities) + TagIfSet("ClientNote", f.clientNotes)
  }

  /** There is no tag exactly when no filter is set. */
  lemma NoTags(f: Filters)
    ensures Tags(f) == [] <==> f == NoFilters
  {
    if f != NoFilters {
      assert |f.stages| > 0 || |f.types| > 0 || |f.nationalities| > 0 || |f.clientNotes| > 0;
    }
  }

  lemma {:induction false} PrefixedEmpty(xs: seq<string>, prefix: string)
    requires |prefix| > 0
    ensures Prefixed(xs, prefix) == "" <==> xs == []
  {
    if xs != [] {
      assert |Prefixed(xs, prefix)| >= |prefix|;
    }
  }

  /** The name builder of `export_data`: `filtered_data` alone when no filter is set, and otherwise
      `filtered_data` with `_` and a tag appended for each filter that is set. */
  method ExportBaseName(f: Filters) returns (name: string)
    ensures name == BaseName + Prefixed(Tags(f), "_")
    ensures name == BaseName <==> f == NoFilters
    ensures |f.stages| > 0 ==> |name| >= |BaseName| + 7 && name[..|BaseName| + 7] == BaseName + "_Stage_"
  {
    var filterNames: seq<string> := [];
    if |f.stages| > 0 {
      filterNames := filterNames + [Tag("Stage", f.stages)];
    }
    assert filterNames == TagIfSet("Stage", f.stages);
    if |f.types| > 0 {
      filterNames := filterNames + [Tag("Type", f.types)];
    }
    assert filterNames == TagIfSet("Stage", f.stages) + TagIfSet("Type", f.types);
    if |f.nationalities| > 0 {
      filterNames := filterNames + [Tag("Nationality", f.nationalities)];
    }
    assert filterNames == TagIfSet("Stage", f.stages) + TagIfSet("Type", f.types) +
                          TagIfSet("Nationality", f.nationalities);
    if |f.clientNotes| > 0 {
      filterNames := filterNames + [Tag("ClientNote", f.clientNotes)];
    }
    assert filterNames == Tags(f);
    name := BaseName;
    if |filterNames| > 0 {
      name := name + "_" + Join(filterNames, "_");
    }
    NameOfTags(f, filterNames, name);
  }

  /** What the name built from the tags of `f` is made of. */
  lemma NameOfTags(f: Filters, tags: seq<string>, name: string)
    requires tags == Tags(f)
    requires name == if |tags| > 0 then BaseName + "_" + Join(tags, "_") else BaseName
    ensures name == BaseName + Prefixed(tags, "_")
    ensures name == BaseName <==> f == NoFilters
    ensures |f.stages| > 0 ==> |name| >= |BaseName| + 7 && name[..|BaseName| + 7] == BaseName + "_Stage_"
  {
    assert name == BaseName + Prefixed(tags, "_") by {
      if |tags| > 0 {
        JoinPrefixed(tags, "_");
      }
    }
    NoTags(f);
    PrefixedEmpty(tags, "_");
    if |f.stages| > 0 {
      StageTagFirst(f, tags);
    }
  }

  lemma PrefixOfConcat<T>(a: seq<T>, b: seq<T>)
    ensures (a + b)[..|a|] == a
  {
  }

  /** With a stage filter set, the name starts with the stage tag. */
  lemma StageTagFirst(f: Filters, tags: seq<string>)
    requires |f.stages| > 0 && tags == Tags(f)
    ensures |BaseName + Prefixed(tags, "_")| >= |BaseName| + 7
    ensures (BaseName + Prefixed(tags, "_"))[..|BaseName| + 7] == BaseName + "_Stage_"
  {
    assert tags[0] == "Stage_" + Join(f.stages, "_");
    var rest := Join(f.stages, "_") + Prefixed(tags[1..], "_");
    assert BaseName + Prefixed(tags, "_") == (BaseName + "_Stage_") + rest;
    PrefixOfConcat(BaseName + "_Stage_", rest);
  }
}
