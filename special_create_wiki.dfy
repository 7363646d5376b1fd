/**
 * `Special:CreateWiki`: the steward's direct wiki creation, without a request. Both
 * the plain form handler (`processForm`) and the `HTMLForm` callback (`onSubmit`)
 * sanitise the name, refuse a registered one, create and populate the database, and
 * register the wiki; each stops at the first step that fails.
 */
module SpecialCreateWiki {
  import opened Wrappers
  import opened Php
  import opened Assoc
  import opened Database
  import opened Globals
  import opened MirahezeFunctions

  /** Where a creation attempt ended; every failure is shown or returned as its message. */
  datatype Outcome =
    | Created(url: string)
    | MissingRequired
    | AlreadyExists
    | DatabaseFailed
    | PopulateFailed

  /** The message key shown for an outcome. */
  function MessageKey(o: Outcome): (key: string)
    ensures key == "createwiki-success" <==> o.Created?
  {
    match o
    case Created(_) => "createwiki-success"
    case MissingRequired => "createwiki-error-required"
    case AlreadyExists => "createwiki-error-exists"
    case DatabaseFailed => "createwiki-error-database"
    case PopulateFailed => "createwiki-error-populate"
  }

  /**
   * The steps both handlers share once the name is sanitised: existence check,
   * `createWikiDB`, `populateWikiDB`, then `addWiki` with the generated URL and empty
   * settings. `addWiki` cannot fail here, as the name was checked to be free.
   */
  method CreateAndRegister(db: Db, g: Globals, wiki: NewWiki, server: Provision) returns (outcome: Outcome)
    requires db.Valid()
    requires wiki.url == GenerateWikiURL(g.createWikiSubdomain, wiki.dbname) && wiki.settings == Some([])
    modifies db`wikis, db`clock, db`databases, db`populated
    ensures db.Valid()
    ensures outcome.Created? <==>
              && !Has(old(db.wikis), wiki.dbname) && !DatabaseTaken(old(db.databases), wiki.dbname)
              && server.createSucceeds && server.tablesSqlFound && server.populateSucceeds
    ensures outcome == AlreadyExists <==> Has(old(db.wikis), wiki.dbname)
    ensures outcome == DatabaseFailed <==>
              !Has(old(db.wikis), wiki.dbname) && (DatabaseTaken(old(db.databases), wiki.dbname) || !server.createSucceeds)
    ensures outcome == PopulateFailed <==>
              && !Has(old(db.wikis), wiki.dbname) && !DatabaseTaken(old(db.databases), wiki.dbname) && server.createSucceeds
              && !(server.tablesSqlFound && server.populateSucceeds)
    ensures outcome != MissingRequired
    ensures outcome.Created? ==>
              outcome.url == wiki.url && db.wikis == old(db.wikis) + [(wiki.dbname, NewWikiRow(wiki, old(db.clock)))]
    ensures !outcome.Created? ==> db.wikis == old(db.wikis) && db.clock == old(db.clock)
    ensures outcome == AlreadyExists ==> db.databases == old(db.databases) && db.populated == old(db.populated)
    ensures outcome != AlreadyExists ==>
              && db.databases == AfterCreate(old(db.databases), wiki.dbname, server)
              && db.populated == AfterPopulate(old(db.databases), old(db.populated), wiki.dbname, server)
  {
    if WikiExists(db, wiki.dbname) {
      return AlreadyExists;
    }
    var created := CreateWikiDB(db, wiki.dbname, server);
    if !created {
      return DatabaseFailed;
    }
    var populated := PopulateWikiDB(db, wiki.dbname, server);
    if !populated {
      return PopulateFailed;
    }
    var added := AddWiki(db, wiki);
    assert added;
    outcome := Created(wiki.url);
  }

  /** The plain form's fields (`getText` gives `""` for a missing one, `getBool` gives `false`). */
  datatype CreateForm = CreateForm(dbname: string, sitename: string, language: string, category: string, private: bool)

  /** The registry entry `processForm` asks for under the sanitised name. */
  function FormWiki(g: Globals, form: CreateForm): NewWiki
    reads g
  {
    var name := SanitizeDBname(form.dbname);
    NewWiki(name, form.sitename, form.language, Some(form.private), Some(form.category),
      GenerateWikiURL(g.createWikiSubdomain, name), Some([]))
  }

  /**
   * `processForm`: an empty sanitised name, sitename or language (PHP `empty`, so `"0"`
   * counts as empty) stops the flow before anything is checked or created; then the
   * shared steps run on the sanitised name.
   */
  method ProcessForm(db: Db, g: Globals, form: CreateForm, server: Provision) returns (outcome: Outcome)
    requires db.Valid()
    modifies db`wikis, db`clock, db`databases, db`populated
    ensures db.Valid()
    ensures var name := SanitizeDBname(form.dbname);
            var missing := EmptyString(name) || EmptyString(form.sitename) || EmptyString(form.language);
            && (outcome == MissingRequired <==> missing)
            && (outcome.Created? <==>
                  && !missing && !Has(old(db.wikis), name) && !DatabaseTaken(old(db.databases), name)
                  && server.createSucceeds && server.tablesSqlFound && server.populateSucceeds)
            && (outcome == AlreadyExists <==> !missing && Has(old(db.wikis), name))
            && (missing || outcome == AlreadyExists ==>
                  db.databases == old(db.databases) && db.populated == old(db.populated) && db.clock == old(db.clock))
            && (!missing && outcome != AlreadyExists ==>
                  && db.databases == AfterCreate(old(db.databases), name, server)
                  && db.populated == AfterPopulate(old(db.databases), old(db.populated), name, server))
    ensures outcome.Created? ==>
              && outcome.url == GenerateWikiURL(g.createWikiSubdomain, SanitizeDBname(form.dbname))
              && db.wikis == old(db.wikis) + [(SanitizeDBname(form.dbname), NewWikiRow(FormWiki(g, form), old(db.clock)))]
    ensures !outcome.Created? ==> db.wikis == old(db.wikis)
  {
    var name := SanitizeDBname(form.dbname);
    if EmptyString(name) || EmptyString(form.sitename) || EmptyString(form.language) {
      return MissingRequired;
    }
    outcome := CreateAndRegister(db, g, FormWiki(g, form), server);
  }

  /** The `HTMLForm` data; `private` may be absent (`?? false`), `category` may be `null`. */
  datatype SubmitData = SubmitData(dbname: string, sitename: string, language: string, category: Option<string>, private: Option<bool>)

  /** The registry entry `onSubmit` asks for under the sanitised name. */
  function SubmitWiki(g: Globals, data: SubmitData): NewWiki
    reads g
  {
    var name := SanitizeDBname(data.dbname);
    NewWiki(name, data.sitename, data.language, Some(data.private.GetOr(false)), data.category,
      GenerateWikiURL(g.createWikiSubdomain, name), Some([]))
  }

  /**
   * `onSubmit`: the shared steps on the sanitised name, with no emptiness check (the
   * form's own field validation is not part of this flow); `true` is `Created`.
   */
  method OnSubmit(db: Db, g: Globals, data: SubmitData, server: Provision) returns (outcome: Outcome)
    requires db.Valid()
    modifies db`wikis, db`clock, db`databases, db`populated
    ensures db.Valid()
    ensures outcome != MissingRequired
    ensures var name := SanitizeDBname(data.dbname);
            && (outcome.Created? <==>
                  && !Has(old(db.wikis), name) && !DatabaseTaken(old(db.databases), name)
                  && server.createSucceeds && server.tablesSqlFound && server.populateSucceeds)
            && (outcome == AlreadyExists <==> Has(old(db.wikis), name))
            && (outcome == DatabaseFailed <==>
                  !Has(old(db.wikis), name) && (DatabaseTaken(old(db.databases), name) || !server.createSucceeds))
            && (outcome == PopulateFailed <==>
                  && !Has(old(db.wikis), name) && !DatabaseTaken(old(db.databases), name) && server.createSucceeds
                  && !(server.tablesSqlFound && server.populateSucceeds))
            && (outcome == AlreadyExists ==> db.databases == old(db.databases) && db.populated == old(db.populated))
            && (outcome != AlreadyExists ==>
                  && db.databases == AfterCreate(old(db.databases), name, server)
                  && db.populated == AfterPopulate(old(db.databases), old(db.populated), name, server))
            && (outcome.Created? ==>
                  && outcome.url == GenerateWikiURL(g.createWikiSubdomain, name)
                  && db.wikis == old(db.wikis) + [(name, NewWikiRow(SubmitWiki(g, data), old(db.clock)))])
    ensures !outcome.Created? ==> db.wikis == old(db.wikis) && db.clock == old(db.clock)
  {
    outcome := CreateAndRegister(db, g, SubmitWiki(g, data), server);
  }

  /** A wiki created through `onSubmit` without a `private` field is public, and stays uncategorised without a category. */
  lemma SubmitDefaults(g: Globals, data: SubmitData, now: nat)
    requires data.private.None? && data.category.None?
    ensures var row := NewWikiRow(SubmitWiki(g, data), now);
            !row.private && row.category == "uncategorised" && row.settings == [] && row.creation == Some(now)
  {
  }

  /** The registered row of a successful creation: the sanitised name, the form's fields, empty settings. */
  lemma FormWikiRow(g: Globals, form: CreateForm, now: nat)
    ensures var w := FormWiki(g, form);
            var row := NewWikiRow(w, now);
            && SanitizedName(w.dbname)
            && row.sitename == form.sitename && row.language == form.language
            && row.private == form.private && row.category == form.category
            && row.url == GenerateWikiURL(g.createWikiSubdomain, w.dbname)
            && row.settings == [] && !row.closed && !row.inactive
  {
    SanitizeIdempotent(form.dbname);
    SanitizeFixpoint(SanitizeDBname(form.dbname));
  }
}
