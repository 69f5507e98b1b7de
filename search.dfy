/**
 * Catalogue search: which books a search term selects for each search type.
 */
module Search {
  import opened Text
  import opened Entities

  /** The matching rule of a search: "isbn" compares the whole ISBN, "title"
      and "author" look for the term inside the field ignoring letter case,
      and any other search type selects nothing. */
  predicate Matches(b: Book, term: string, searchType: string) {
    if searchType == "isbn" then b.isbn == term
    else if searchType == "title" then Contains(Lower(b.title), Lower(term))
    else if searchType == "author" then Contains(Lower(b.author), Lower(term))
    else false
  }

  /** A title search finds a book under its own title written in any case,
      and under any part of it. */
  lemma TitleSearchFindsPart(b: Book, term: string, i: nat)
    requires i + |term| <= |b.title|
    requires Lower(term) == Lower(b.title[i..i + |term|])
    ensures Matches(b, term, "title")
  {
    var hay := Lower(b.title);
    var part := b.title[i..i + |term|];
    assert hay[i..i + |term|] == Lower(part) by {
      forall k | 0 <= k < |term| ensures hay[i + k] == Lower(part)[k] {
        assert part[k] == b.title[i + k];
      }
    }
    assert OccursAt(hay, Lower(term), i);
  }
}
