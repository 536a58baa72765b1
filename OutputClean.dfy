/**
  The clean step of the article compiler: before anything is generated,
  every entry of the output directory is removed except the repository
  metadata `.git` and the generator's own directory `__generate`.
  The directory is modelled by the set of its entry names.
 */
module OutputClean {

  /** The entries the clean step leaves alone. */
  predicate Reserved(name: string) {
    name == ".git" || name == "__generate"
  }

  /** What is left of a directory once it is cleaned: every reserved entry
      survives and every other entry is gone. */
  function Cleaned(entries: set<string>): (r: set<string>)
    ensures r <= entries
    ensures forall e :: e in r <==> e in entries && Reserved(e)
  {
    set e | e in entries && Reserved(e)
  }

  /** Cleaning a cleaned directory changes nothing. */
  lemma CleanedIdempotent(entries: set<string>)
    ensures Cleaned(Cleaned(entries)) == Cleaned(entries)
  {
    assert forall e :: e in Cleaned(Cleaned(entries)) <==> e in Cleaned(entries);
  }

  /** At most the two reserved entries remain. */
  lemma CleanedSize(entries: set<string>)
    ensures Cleaned(entries) <= {".git", "__generate"}
    ensures |Cleaned(entries)| <= 2
  {
    var keep := Cleaned(entries);
    assert keep <= {".git", "__generate"};
    SubsetSize(keep, {".git", "__generate"});
  }

  lemma {:induction false} SubsetSize(a: set<string>, b: set<string>)
    requires a <= b
    ensures |a| <= |b|
  {
    assert b == a + (b - a);
  }

  /** The output directory, holding the names of its entries. */
  class OutputDir {
    var entries: set<string>

    constructor (initial: set<string>)
      ensures entries == initial
    {
      entries := initial;
    }

    /** `fs.readdir`: every entry once, in some order. */
    method ReadDir() returns (names: seq<string>)
      ensures forall n :: n in names <==> n in entries
      ensures forall i, j :: 0 <= i < j < |names| ==> names[i] != names[j]
    {
      names := [];
      var rest := entries;
      while rest != {}
        invariant forall n :: n in names ==> n in entries && n !in rest
        invariant forall n :: n in entries ==> n in names || n in rest
        invariant rest <= entries
        invariant forall i, j :: 0 <= i < j < |names| ==> names[i] != names[j]
        decreases |rest|
      {
        var n :| n in rest;
        names := names + [n];
        rest := rest - {n};
      }
    }

    /** `fs.rm(path, { recursive: true, force: true })`: the entry and all it
        holds are gone, and a missing entry is no error. */
    method Remove(name: string)
      modifies this
      ensures entries == old(entries) - {name}
    {
      entries := entries - {name};
    }

    /** The loop over the listed entries, removing each that is not reserved. */
    method Clean()
      modifies this
      ensures entries == Cleaned(old(entries))
    {
      var names := ReadDir();
      var i := 0;
      while i < |names|
        invariant 0 <= i <= |names|
        invariant forall e :: e in entries <==> e in old(entries) && (Reserved(e) || e !in names[..i])
      {
        var name := names[i];
        if !Reserved(name) {
          Remove(name);
        }
        assert names[..i + 1] == names[..i] + [name];
        i := i + 1;
      }
      assert names[..i] == names;
    }
  }
}
