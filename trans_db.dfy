/**
 * `Locale.transDb` and `String.transDbByCode`: the get-or-insert on the
 * process-wide registry `TranslateDb.repo`, here an object passed in.
 */
module TransDbRegistry {
  import opened LocaleCodec

  /** The opaque cache handle; all the model keeps of it is the code it was built from. */
  class TranslateDb {
    const code: string

    constructor (code: string)
      ensures this.code == code
    {
      this.code := code;
    }
  }

  /** `TranslateDb.repo`: locale to cache handle, grown on demand, never evicted. */
  class Repo {
    var repo: map<Locale, TranslateDb>

    /** Every handle was built from its key's code. */
    ghost predicate Valid()
      reads this
    {
      forall l :: l in repo ==> repo[l].code == Locale2Code(l)
    }

    constructor ()
      ensures repo == map[] && Valid()
    {
      repo := map[];
    }

    /**
     * `transDb`: the stored handle when the locale has one, the map untouched;
     * otherwise a new handle built from `locale2code`, stored under the locale
     * and returned, every other key untouched.
     */
    method TransDb(l: Locale) returns (db: TranslateDb)
      requires Valid()
      modifies this
      ensures Valid()
      ensures l in old(repo) ==> db == old(repo)[l] && repo == old(repo)
      ensures l !in old(repo) ==> fresh(db) && db.code == Locale2Code(l) && repo == old(repo)[l := db]
      ensures l in repo && repo[l] == db && db.code == Locale2Code(l)
    {
      if l in repo {
        db := repo[l];
      } else {
        db := new TranslateDb(Locale2Code(l));
        repo := repo[l := db];
      }
    }

    /** `transDbByCode`: the handle of the decoded code. */
    method TransDbByCode(code: string) returns (db: TranslateDb)
      requires Valid()
      modifies this
      ensures Valid()
      ensures Code2Locale(code) in old(repo) ==> db == old(repo)[Code2Locale(code)] && repo == old(repo)
      ensures Code2Locale(code) !in old(repo) ==>
        fresh(db) && db.code == Locale2Code(Code2Locale(code)) && repo == old(repo)[Code2Locale(code) := db]
    {
      db := TransDb(Code2Locale(code));
    }

    /** A second lookup of the same locale returns the same handle and changes nothing. */
    method TransDbTwice(l: Locale) returns (first: TranslateDb, second: TranslateDb)
      requires Valid()
      modifies this
      ensures Valid()
      ensures first == second
      ensures l in old(repo) ==> repo == old(repo)
      ensures l !in old(repo) ==> repo == old(repo)[l := first]
    {
      first := TransDb(l);
      second := TransDb(l);
    }
  }
}
