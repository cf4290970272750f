/**
 * The template registry (records/templates.py): the record templates known by
 * key, registration that refuses a key twice, and the file the registry is
 * written back to when a template was added.
 */
module Templates {
  import opened Wrappers
  import opened Text

  /** A record template: its key and the documents, images, notebooks and tables it includes. */
  datatype RecordsTemplate = RecordsTemplate(
    key: string,
    documents: Option<seq<string>>,
    images: Option<seq<string>>,
    notebooks: Option<seq<string>>,
    tables: Option<seq<string>>)

  /** KeyError for a key nothing is registered under, ValueError for a key registered twice. */
  datatype TemplateError = MissingTemplate(key: string) | DuplicateTemplate(key: string)

  // ---------------------------------------------------------------------------
  // The text the registry is saved as

  /** The `i`-th entry followed by its separator: a comma for all but the last. */
  function Piece(entries: seq<string>, i: nat): string
    requires i < |entries|
  {
    entries[i] + (if i < |entries| - 1 then ",\n" else "\n")
  }

  /** The first `n` entries with their separators, in order. */
  function Pieces(entries: seq<string>, n: nat): string
    requires n <= |entries|
  {
    if n == 0 then [] else Pieces(entries, n - 1) + Piece(entries, n - 1)
  }

  /** The whole text written by a save: an opening brace line, the entries, a closing brace line. */
  function SavedText(entries: seq<string>): string {
    "{\n" + Pieces(entries, |entries|) + "}\n"
  }

  /**
   * The file after writing `text` from its start in "r+" mode: the file is not
   * truncated, so what lay beyond the written text stays.
   */
  function Overwrite(before: string, text: string): (r: string)
    ensures |r| == if |before| > |text| then |before| else |text|
    ensures r[..|text|] == text
    ensures |before| > |text| ==> r[|text|..] == before[|text|..]
  {
    text + (if |before| > |text| then before[|text|..] else [])
  }

  /** The first `n` pieces are the entries joined by commas, then a comma or, after the last, a newline. */
  lemma {:induction false} PiecesJoin(entries: seq<string>, n: nat)
    requires 0 < n <= |entries|
    ensures Pieces(entries, n) == Join(entries[..n], ",\n") + (if n < |entries| then ",\n" else "\n")
  {
    if n == 1 {
      assert entries[..1] == [entries[0]];
    } else {
      PiecesJoin(entries, n - 1);
      assert entries[..n] == entries[..n - 1] + [entries[n - 1]];
      JoinSnoc(entries[..n - 1], entries[n - 1], ",\n");
    }
  }

  /**
   * The saved text is a JSON object: the serialised entries separated by a comma
   * and a newline, each on its own lines, with no comma after the last.
   */
  lemma SavedTextLayout(entries: seq<string>)
    ensures entries == [] ==> SavedText(entries) == "{\n}\n"
    ensures entries != [] ==> SavedText(entries) == "{\n" + Join(entries, ",\n") + "\n}\n"
  {
    if entries != [] {
      PiecesJoin(entries, |entries|);
      assert entries[..|entries|] == entries;
    }
  }

  // ---------------------------------------------------------------------------
  // The registry

  /**
   * The registry: the templates by key in insertion order, whether one was added
   * since the last save, and the contents of the registry file.
   */
  class TemplateRegistry {
    var templates: map<string, RecordsTemplate>
    var order: seq<string>
    var newTemplate: bool
    var file: string

    /** The order lists every key once. */
    ghost predicate Valid()
      reads this
    {
      && (forall k :: k in templates <==> k in order)
      && (forall i, j | 0 <= i < j < |order| :: order[i] != order[j])
    }

    /** An empty registry over a registry file with the given contents. */
    constructor (contents: string)
      ensures Valid() && templates == map[] && order == [] && !newTemplate && file == contents
    {
      templates := map[];
      order := [];
      newTemplate := false;
      file := contents;
    }

    /** `has(key)`. */
    predicate Has(key: string)
      reads this
    {
      key in templates
    }

    /** `get(key)`: the template under the key; a KeyError when there is none. */
    function Get(key: string): (r: Result<RecordsTemplate, TemplateError>)
      reads this
      ensures r.Ok? <==> Has(key)
      ensures r.Ok? ==> r.value == templates[key]
      ensures r.Err? ==> r.error == MissingTemplate(key)
    {
      if key in templates then Ok(templates[key]) else Err(MissingTemplate(key))
    }

    /**
     * `register(template)`: a ValueError that changes nothing when the key is
     * taken; otherwise the template goes last under its key and the registry is
     * marked as changed.
     */
    method Register(template: RecordsTemplate) returns (r: Result<(), TemplateError>)
      requires Valid()
      modifies this
      ensures Valid()
      ensures old(Has(template.key)) ==>
        && r == Err(DuplicateTemplate(template.key))
        && templates == old(templates) && order == old(order) && newTemplate == old(newTemplate)
      ensures !old(Has(template.key)) ==>
        && r == Ok(())
        && templates == old(templates)[template.key := template]
        && order == old(order) + [template.key]
        && newTemplate
      ensures file == old(file)
    {
      if Has(template.key) {
        return Err(DuplicateTemplate(template.key));
      }
      templates := templates[template.key := template];
      order := order + [template.key];
      newTemplate := true;
      r := Ok(());
    }

    /**
     * The serialised entries in registry order; `serialise` stands for the key
     * dumped as JSON, a colon, the template dumped as JSON, all indented.
     */
    ghost function Serialised(serialise: (string, RecordsTemplate) -> string): (r: seq<string>)
      reads this
      requires Valid()
      ensures |r| == |order|
      ensures forall i | 0 <= i < |r| :: r[i] == serialise(order[i], templates[order[i]])
    {
      seq(|order|, i requires 0 <= i < |order| && order[i] in templates reads this => serialise(order[i], templates[order[i]]))
    }

    /**
     * `_save`: the object text is written from the start of the file, which is
     * not truncated, and the registry is no longer marked as changed.
     */
    method Save(serialise: (string, RecordsTemplate) -> string)
      requires Valid()
      modifies this
      ensures Valid() && templates == old(templates) && order == old(order) && !newTemplate
      ensures file == Overwrite(old(file), SavedText(old(Serialised(serialise))))
    {
      ghost var entries := Serialised(serialise);
      var text := "{\n";
      var n := |order|;
      for idx := 0 to n
        invariant text == "{\n" + Pieces(entries, idx)
      {
        var piece := serialise(order[idx], templates[order[idx]]);
        piece := piece + (if idx < n - 1 then ",\n" else "\n");
        text := text + piece;
      }
      text := text + "}\n";
      file := Overwrite(file, text);
      newTemplate := false;
    }

    /** `__exit__`: the registry is saved exactly when a template was added. */
    method Exit(serialise: (string, RecordsTemplate) -> string)
      requires Valid()
      modifies this
      ensures Valid() && templates == old(templates) && order == old(order) && !newTemplate
      ensures old(newTemplate) ==> file == Overwrite(old(file), SavedText(old(Serialised(serialise))))
      ensures !old(newTemplate) ==> file == old(file)
    {
      if newTemplate {
        Save(serialise);
      }
    }
  }
}
