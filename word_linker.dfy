/** `WordLinker`: attaching derived words to a parent word and authors to a
    word. The corrected operations check first and then extend the word's
    stored relationship in place, never adding what is already there. As
    written, the source appends to the list that the `derivatives` or
    `authors` property returns, a fresh result of `.all()`, so the stored
    relationship does not change; the `...AsWritten` methods model that. */
module WordLinker {
  import opened Common
  import opened Schema
  import Seqs

  /** A word as the linker sees it: its name and its type row do not
      change; `derivatives` and `authors` are the stored relationships
      `relationship_derivatives` and `relationship_authors`. */
  class LinkedWord {
    const name: string
    const kind: WordType
    var derivatives: seq<LinkedWord>
    var authors: seq<Author>

    constructor(name: string, kind: WordType, derivatives: seq<LinkedWord>, authors: seq<Author>)
      ensures this.name == name && this.kind == kind
      ensures this.derivatives == derivatives && this.authors == authors
    {
      this.name := name;
      this.kind := kind;
      this.derivatives := derivatives;
      this.authors := authors;
    }
  }

  /** `list(set(items) - set(existing))`: the elements of `items` that are
      not in `existing`, each once. Python's set iteration order is
      arbitrary; the model takes the order of first occurrence in `items`. */
  function Fresh<T(==)>(items: seq<T>, existing: seq<T>): (r: seq<T>)
    ensures Seqs.NoDup(r)
    ensures forall i :: 0 <= i < |r| ==> r[i] in items && r[i] !in existing
    ensures forall i :: 0 <= i < |items| && items[i] !in existing ==> items[i] in r
    ensures r == [] <==> forall i :: 0 <= i < |items| ==> items[i] in existing
    decreases |items|
  {
    if items == [] then []
    else
      var init := items[..|items| - 1];
      var last := items[|items| - 1];
      var prev := Fresh(init, existing);
      assert forall i :: 0 <= i < |init| ==> init[i] == items[i];
      assert forall x :: x in init ==> x in items;
      if last in existing || last in prev then prev else prev + [last]
  }

  /** As sets, `Fresh` is the set difference. */
  lemma FreshIsSetDifference<T>(items: seq<T>, existing: seq<T>)
    ensures (set x | x in Fresh(items, existing)) == (set x | x in items) - (set x | x in existing)
  {
    var r := Fresh(items, existing);
    forall x | x in items && x !in existing ensures x in r {
      var i :| 0 <= i < |items| && items[i] == x;
    }
    forall x | x in r ensures x in items && x !in existing {
      var i :| 0 <= i < |r| && r[i] == x;
    }
  }

  /** Once extended by its added elements, a collection has none left:
      repeating the extension adds nothing. */
  lemma FreshIdempotent<T>(items: seq<T>, existing: seq<T>)
    ensures Fresh(items, existing + Fresh(items, existing)) == []
  {
    var r := Fresh(items, existing);
    forall i | 0 <= i < |items| ensures items[i] in existing + r {
      if items[i] !in existing {
        assert items[i] in r;
      }
    }
  }

  /** Extending a duplicate-free collection by its added elements keeps it
      duplicate-free, keeps what it held and covers every item. */
  lemma ExtendByFresh<T>(items: seq<T>, existing: seq<T>)
    ensures Seqs.NoDup(existing) ==> Seqs.NoDup(existing + Fresh(items, existing))
    ensures forall i :: 0 <= i < |items| ==> items[i] in existing + Fresh(items, existing)
    ensures forall x :: x in existing + Fresh(items, existing) ==> x in existing || x in items
  {
    var r := Fresh(items, existing);
    var s := existing + r;
    if Seqs.NoDup(existing) {
      forall i, j | 0 <= i < j < |s| ensures s[i] != s[j] {
        if j >= |existing| {
          assert s[j] == r[j - |existing|];
          if i < |existing| {
            assert s[i] in existing;
          } else {
            assert s[i] == r[i - |existing|];
          }
        }
      }
    }
    forall i | 0 <= i < |items| ensures items[i] in s {
      if items[i] !in existing {
        assert items[i] in r;
      }
    }
    forall x | x in s ensures x in existing || x in items {
      if x !in existing {
        var i :| 0 <= i < |r| && r[i] == x;
      }
    }
  }

  /** `add_child(parent, child)`, corrected to append through
      `relationship_derivatives`: TypeError when the child's type is not
      parentable, checked before anything else, even for a child already
      attached; otherwise the child is appended unless already there, and
      its name is returned. */
  method AddChild(parent: LinkedWord, child: LinkedWord) returns (r: Result<string>)
    modifies parent
    ensures !child.kind.parentable ==> r.Failure? && r.error.TypeError? && parent.derivatives == old(parent.derivatives)
    ensures child.kind.parentable ==> r == Success(child.name)
    ensures child.kind.parentable ==>
      parent.derivatives == if child in old(parent.derivatives) then old(parent.derivatives) else old(parent.derivatives) + [child]
    ensures parent.authors == old(parent.authors)
  {
    if !child.kind.parentable {
      return Failure(TypeError(child.name + " is not parentable"));
    }
    if child !in parent.derivatives {
      parent.derivatives := parent.derivatives + [child];
    }
    return Success(child.name);
  }

  /** `add_children(parent, children)`, corrected to extend
      `relationship_derivatives`: the children not yet attached are
      computed first; if any of them is not parentable, TypeError and
      nothing changes (already attached children are not checked);
      otherwise they are appended. */
  method AddChildren(parent: LinkedWord, children: seq<LinkedWord>) returns (r: Result<()>)
    modifies parent
    ensures r.Failure? <==>
      exists i :: 0 <= i < |children| && children[i] !in old(parent.derivatives) && !children[i].kind.parentable
    ensures r.Failure? ==> r.error.TypeError? && parent.derivatives == old(parent.derivatives)
    ensures r.Success? ==> parent.derivatives == old(parent.derivatives) + Fresh(children, old(parent.derivatives))
    ensures parent.authors == old(parent.authors)
  {
    var added: seq<LinkedWord> := [];
    var i := 0;
    while i < |children|
      invariant 0 <= i <= |children|
      invariant added == Fresh(children[..i], parent.derivatives)
    {
      var child := children[i];
      assert children[..i + 1] == children[..i] + [child];
      if child !in parent.derivatives && child !in added {
        added := added + [child];
      }
      i := i + 1;
    }
    assert children[..i] == children;
    if exists j :: 0 <= j < |added| && !added[j].kind.parentable {
      return Failure(TypeError("At least some of the new children are not parentable"));
    }
    if added != [] {
      parent.derivatives := parent.derivatives + added;
    }
    return Success(());
  }

  /** `add_author(word, author)`, corrected to append through
      `relationship_authors`: appends the author unless already there and
      returns its abbreviation. */
  method AddAuthor(word: LinkedWord, author: Author) returns (abbreviation: string)
    modifies word
    ensures abbreviation == author.abbreviation
    ensures word.authors == if author in old(word.authors) then old(word.authors) else old(word.authors) + [author]
    ensures word.derivatives == old(word.derivatives)
  {
    if author !in word.authors {
      word.authors := word.authors + [author];
    }
    return author.abbreviation;
  }

  /** `add_authors(word, authors)`, corrected to extend
      `relationship_authors`: appends the authors not yet there. */
  method AddAuthors(word: LinkedWord, authors: seq<Author>)
    modifies word
    ensures word.authors == old(word.authors) + Fresh(authors, old(word.authors))
    ensures word.derivatives == old(word.derivatives)
  {
    var added: seq<Author> := [];
    var i := 0;
    while i < |authors|
      invariant 0 <= i <= |authors|
      invariant added == Fresh(authors[..i], word.authors)
    {
      var author := authors[i];
      assert authors[..i + 1] == authors[..i] + [author];
      if author !in word.authors && author !in added {
        added := added + [author];
      }
      i := i + 1;
    }
    assert authors[..i] == authors;
    if added != [] {
      word.authors := word.authors + added;
    }
  }

  /** With the corrected operations, linking the same children or authors
      twice changes nothing the second time, and every one of them is then
      attached exactly once. */
  method LinkTwice(parent: LinkedWord, children: seq<LinkedWord>, authors: seq<Author>)
    requires Seqs.NoDup(parent.derivatives) && Seqs.NoDup(parent.authors)
    modifies parent
    ensures Seqs.NoDup(parent.derivatives) && Seqs.NoDup(parent.authors)
    ensures forall i :: 0 <= i < |authors| ==> authors[i] in parent.authors
  {
    var first := AddChildren(parent, children);
    ExtendByFresh(children, old(parent.derivatives));
    var between := parent.derivatives;
    var second := AddChildren(parent, children);
    if first.Success? {
      FreshIdempotent(children, old(parent.derivatives));
      assert second.Success? && parent.derivatives == between;
    }
    AddAuthors(parent, authors);
    ghost var once := parent.authors;
    AddAuthors(parent, authors);
    FreshIdempotent(authors, old(parent.authors));
    ExtendByFresh(authors, old(parent.authors));
    assert parent.authors == once;
  }

  // ---------------------------------------------------------------- as written

  /** `add_child` as written: the same check and the same result, but the
      child is appended to `parent.derivatives`, a fresh list read from the
      relationship, so the stored derivatives stay as they were. */
  method AddChildAsWritten(parent: LinkedWord, child: LinkedWord) returns (r: Result<string>)
    ensures !child.kind.parentable ==> r.Failure? && r.error.TypeError?
    ensures child.kind.parentable ==> r == Success(child.name)
    ensures parent.derivatives == old(parent.derivatives) && parent.authors == old(parent.authors)
  {
    if !child.kind.parentable {
      return Failure(TypeError(child.name + " is not parentable"));
    }
    var view := parent.derivatives;
    if child !in view {
      view := view + [child];
    }
    return Success(child.name);
  }

  /** `add_children` as written: the same check on the new children, and
      `extend` on a fresh list, so the stored derivatives stay as they
      were. */
  method AddChildrenAsWritten(parent: LinkedWord, children: seq<LinkedWord>) returns (r: Result<()>)
    ensures r.Failure? <==>
      exists i :: 0 <= i < |children| && children[i] !in parent.derivatives && !children[i].kind.parentable
    ensures r.Failure? ==> r.error.TypeError?
    ensures parent.derivatives == old(parent.derivatives) && parent.authors == old(parent.authors)
  {
    var added := Fresh(children, parent.derivatives);
    if exists j :: 0 <= j < |added| && !added[j].kind.parentable {
      return Failure(TypeError("At least some of the new children are not parentable"));
    }
    var view := parent.derivatives;
    if added != [] {
      view := view + added;
    }
    return Success(());
  }

  /** `add_author` as written: the abbreviation is returned, and the author
      is appended to a fresh list, so the stored authors stay as they
      were. */
  method AddAuthorAsWritten(word: LinkedWord, author: Author) returns (abbreviation: string)
    ensures abbreviation == author.abbreviation
    ensures word.authors == old(word.authors) && word.derivatives == old(word.derivatives)
  {
    var view := word.authors;
    if author !in view {
      view := view + [author];
    }
    return author.abbreviation;
  }

  /** `add_authors` as written: `extend` on a fresh list, so the stored
      authors stay as they were. */
  method AddAuthorsAsWritten(word: LinkedWord, authors: seq<Author>)
    ensures word.authors == old(word.authors) && word.derivatives == old(word.derivatives)
  {
    var added := Fresh(authors, word.authors);
    var view := word.authors;
    if added != [] {
      view := view + added;
    }
  }

  /** A parentable child not yet attached: as written, `add_child` returns
      its name and leaves it unattached; the corrected `add_child` then
      attaches it. */
  method ChildLinkLost(parent: LinkedWord, child: LinkedWord) returns (name: Result<string>, afterAsWritten: seq<LinkedWord>)
    requires child.kind.parentable && child !in parent.derivatives
    modifies parent
    ensures name == Success(child.name)
    ensures afterAsWritten == old(parent.derivatives) && child !in afterAsWritten
    ensures parent.derivatives == afterAsWritten + [child]
  {
    name := AddChildAsWritten(parent, child);
    afterAsWritten := parent.derivatives;
    var corrected := AddChild(parent, child);
  }

  /** Parentable children, one of them new: as written, `add_children`
      succeeds and attaches none of them; the corrected one attaches the new
      ones. */
  method ChildrenLinkLost(parent: LinkedWord, children: seq<LinkedWord>, k: nat) returns (afterAsWritten: seq<LinkedWord>)
    requires forall i :: 0 <= i < |children| ==> children[i].kind.parentable
    requires k < |children| && children[k] !in parent.derivatives
    modifies parent
    ensures afterAsWritten == old(parent.derivatives) && children[k] !in afterAsWritten
    ensures parent.derivatives == afterAsWritten + Fresh(children, afterAsWritten)
    ensures children[k] in parent.derivatives
  {
    var r := AddChildrenAsWritten(parent, children);
    afterAsWritten := parent.derivatives;
    var corrected := AddChildren(parent, children);
    assert children[k] in Fresh(children, afterAsWritten);
  }

  /** An author not yet attached: as written, `add_author` returns the
      abbreviation and leaves the author unattached; the corrected
      `add_author` attaches it. */
  method AuthorLinkLost(word: LinkedWord, author: Author) returns (abbreviation: string, afterAsWritten: seq<Author>)
    requires author !in word.authors
    modifies word
    ensures abbreviation == author.abbreviation
    ensures afterAsWritten == old(word.authors) && author !in afterAsWritten
    ensures word.authors == afterAsWritten + [author]
  {
    abbreviation := AddAuthorAsWritten(word, author);
    afterAsWritten := word.authors;
    var corrected := AddAuthor(word, author);
  }

  /** Authors, one of them new: as written, `add_authors` attaches none of
      them; the corrected one attaches the new ones. */
  method AuthorsLinkLost(word: LinkedWord, authors: seq<Author>, k: nat) returns (afterAsWritten: seq<Author>)
    requires k < |authors| && authors[k] !in word.authors
    modifies word
    ensures afterAsWritten == old(word.authors) && authors[k] !in afterAsWritten
    ensures word.authors == afterAsWritten + Fresh(authors, afterAsWritten)
    ensures authors[k] in word.authors
  {
    AddAuthorsAsWritten(word, authors);
    afterAsWritten := word.authors;
    AddAuthors(word, authors);
    assert authors[k] in Fresh(authors, afterAsWritten);
  }
}
