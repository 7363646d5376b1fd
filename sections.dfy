/**
 * Grouping a catalogue by its `section` tag, as the settings and the extensions pages
 * both do: every entry goes into the bucket named by its section, or `other` when it
 * has none, under its own key.
 */
module Sections {
  import opened Wrappers
  import opened Assoc

  /** `$config['section'] ?? 'other'`. */
  function SectionName(section: Option<string>): string {
    section.GetOr("other")
  }

  /** The section buckets after the loop has seen `entries`. */
  function GroupBy<C>(entries: seq<(string, C)>, sectionOf: C -> Option<string>): (sections: seq<(string, seq<(string, C)>)>)
    ensures Distinct(sections)
    ensures forall i :: 0 <= i < |sections| ==> Distinct(sections[i].1)
  {
    if entries == [] then []
    else
      var n := |entries| - 1;
      var sections := GroupBy(entries[..n], sectionOf);
      var name := SectionName(sectionOf(entries[n].1));
      var bucket := Get(sections, name).GetOr([]);
      assert Distinct(bucket) by {
        var j := IndexOf(sections, name);
        if j >= 0 { DistinctGet(sections, j); }
      }
      var r := Put(sections, name, Put(bucket, entries[n].0, entries[n].1));
      assert forall i :: 0 <= i < |r| ==> Distinct(r[i].1) by {
        forall i | 0 <= i < |r| ensures Distinct(r[i].1) {
          DistinctGet(r, i);
          if r[i].0 != name {
            assert Get(sections, r[i].0) == Some(r[i].1);
            var j := IndexOf(sections, r[i].0);
            DistinctGet(sections, j);
          }
        }
      }
      r
  }

  /** The entries of one section's bucket (none when the section has no bucket). */
  function Bucket<C>(sections: seq<(string, seq<(string, C)>)>, name: string): seq<(string, C)> {
    Get(sections, name).GetOr([])
  }

  /**
   * Every catalogue entry is in the bucket of its own section, and in no other; a bucket
   * holds nothing that is not in the catalogue.
   */
  lemma {:induction false} GroupByPlacement<C>(entries: seq<(string, C)>, sectionOf: C -> Option<string>, name: string, key: string)
    requires Distinct(entries)
    ensures Get(Bucket(GroupBy(entries, sectionOf), name), key) ==
      if Has(entries, key) && SectionName(sectionOf(Get(entries, key).value)) == name then Get(entries, key) else None
  {
    if entries != [] {
      var n := |entries| - 1;
      var init := entries[..n];
      assert Distinct(init);
      GroupByPlacement(init, sectionOf, name, key);
      var (k, v) := entries[n];
      assert !Has(init, k) by {
        var j := IndexOf(init, k);
        assert j < 0;
      }
      assert init + [entries[n]] == entries;
      assert Get(entries, key) == if key == k then Some(v) else Get(init, key) by {
        assert entries == Put(init, k, v);
      }
      var sections := GroupBy(init, sectionOf);
      var placed := SectionName(sectionOf(v));
      assert GroupBy(entries, sectionOf) == Put(sections, placed, Put(Bucket(sections, placed), k, v));
      BucketAfterPut(sections, placed, name, k, v);
    }
  }

  /** Filing one entry changes only the bucket it is filed in. */
  lemma BucketAfterPut<C>(sections: seq<(string, seq<(string, C)>)>, placed: string, name: string, k: string, v: C)
    ensures Bucket(Put(sections, placed, Put(Bucket(sections, placed), k, v)), name) ==
              if name == placed then Put(Bucket(sections, placed), k, v) else Bucket(sections, name)
  {
  }

  /** Creating an empty bucket first, as the loop does, and then filing into it is filing into `Bucket`. */
  lemma CreateThenFile<C>(sections: seq<(string, seq<(string, C)>)>, name: string, k: string, v: C)
    ensures var created := if Has(sections, name) then sections else Put(sections, name, []);
            Has(created, name) &&
            Put(created, name, Put(Get(created, name).value, k, v)) == Put(sections, name, Put(Bucket(sections, name), k, v))
  {
    if !Has(sections, name) {
      PutPut(sections, name, [], Put([], k, v));
    }
  }

  /** One more entry goes into its section's bucket. */
  lemma GroupByStep<C>(entries: seq<(string, C)>, sectionOf: C -> Option<string>, i: nat)
    requires i < |entries|
    ensures var sections := GroupBy(entries[..i], sectionOf);
            var name := SectionName(sectionOf(entries[i].1));
            GroupBy(entries[..i + 1], sectionOf) ==
              Put(sections, name, Put(Get(sections, name).GetOr([]), entries[i].0, entries[i].1))
  {
    assert entries[..i + 1][..i] == entries[..i];
  }

  /** The grouping loop: buckets are created on first use and filled in catalogue order. */
  method GroupBySection<C>(entries: seq<(string, C)>, sectionOf: C -> Option<string>) returns (sections: seq<(string, seq<(string, C)>)>)
    ensures sections == GroupBy(entries, sectionOf)
  {
    sections := [];
    var i := 0;
    while i < |entries|
      invariant 0 <= i <= |entries|
      invariant sections == GroupBy(entries[..i], sectionOf)
    {
      var name := SectionName(sectionOf(entries[i].1));
      CreateThenFile(sections, name, entries[i].0, entries[i].1);
      GroupByStep(entries, sectionOf, i);
      if !Has(sections, name) {
        sections := Put(sections, name, []);
      }
      var bucket := Get(sections, name).value;
      sections := Put(sections, name, Put(bucket, entries[i].0, entries[i].1));
      i := i + 1;
    }
    assert entries[..i] == entries;
  }
}
