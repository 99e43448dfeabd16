/** NewRelationshipViewModel: the dialog state for adding a relationship to
    the character being edited (the Member). It offers as prospective
    partners every character of the story except the Member and those the
    Member is already related to, offers the global list of relation types
    twice (for the relation and its inverse), and keeps a pair of flags that
    record whether the user changed anything once initialisation is over. */
module NewRelationship {
  import opened Wrappers

  /** A StoryElement, compared by identity. */
  type Element = nat

  /** A RelationshipModel of the Member's character; only its Partner is read
      here, and it may be unset. */
  datatype Relationship = Relationship(partner: Option<Element>)

  /** `CharacterRelationships.Any(rel => character.Equals(rel.Partner))`. */
  predicate Partnered(rels: seq<Relationship>, c: Element) {
    exists k :: 0 <= k < |rels| && rels[k].partner == Some(c)
  }

  /** The characters RefreshProspectivePartners keeps, in the order of
      `characters`. */
  function Candidates(characters: seq<Element>, member: Option<Element>, rels: seq<Relationship>): (r: seq<Element>)
    ensures forall x :: x in r <==> x in characters && member != Some(x) && !Partnered(rels, x)
    ensures |r| <= |characters|
    decreases |characters|
  {
    if characters == [] then []
    else
      var init := characters[..|characters| - 1];
      var c := characters[|characters| - 1];
      assert characters == init + [c];
      var kept := Candidates(init, member, rels);
      if member == Some(c) || Partnered(rels, c) then kept else kept + [c]
  }

  /** Filtering a concatenation filters each part: the candidates keep the
      relative order the characters had. */
  lemma {:induction false} CandidatesConcat(a: seq<Element>, b: seq<Element>, member: Option<Element>, rels: seq<Relationship>)
    ensures Candidates(a + b, member, rels) == Candidates(a, member, rels) + Candidates(b, member, rels)
    decreases |b|
  {
    if b == [] {
      assert a + b == a;
    } else {
      var binit, c := b[..|b| - 1], b[|b| - 1];
      CandidatesConcat(a, binit, member, rels);
      assert (a + b)[..|a + b| - 1] == a + binit;
      assert (a + b)[|a + b| - 1] == c;
    }
  }

  /** A character listed once is offered at most once. */
  lemma {:induction false} CandidatesDistinct(characters: seq<Element>, member: Option<Element>, rels: seq<Relationship>)
    requires Distinct(characters)
    ensures Distinct(Candidates(characters, member, rels))
    decreases |characters|
  {
    if characters != [] {
      var init, c := characters[..|characters| - 1], characters[|characters| - 1];
      assert Distinct(init) by {
        forall i, j | 0 <= i < j < |init| ensures init[i] != init[j] {
          assert init[i] == characters[i] && init[j] == characters[j];
        }
      }
      CandidatesDistinct(init, member, rels);
      assert c !in init by {
        forall i | 0 <= i < |init| ensures init[i] != c {
          assert init[i] == characters[i];
        }
      }
    }
  }

  /** An ObservableCollection: a list changed in place by Clear and Add. */
  class ObservableList<T> {
    var items: seq<T>

    constructor ()
      ensures items == []
    {
      items := [];
    }

    method Clear()
      modifies this
      ensures items == []
    {
      items := [];
    }

    method Add(x: T)
      modifies this
      ensures items == old(items) + [x]
    {
      items := items + [x];
    }
  }

  /** The part of the CharacterViewModel this dialog reads: the character
      being edited and its relationships. */
  class CharacterViewModel {
    var model: Option<Element>
    var characterRelationships: seq<Relationship>

    constructor (model: Option<Element>, characterRelationships: seq<Relationship>)
      ensures this.model == model && this.characterRelationships == characterRelationships
    {
      this.model := model;
      this.characterRelationships := characterRelationships;
    }
  }

  class NewRelationshipViewModel {
    const charVM: CharacterViewModel
    var changeable: bool
    var changed: bool

    var member: Option<Element>
    const prospectivePartners: ObservableList<Element>
    var selectedPartner: Option<Element>
    const relationTypes: ObservableList<string>
    var relationType: Option<string>
    const inverseRelationTypes: ObservableList<string>
    var inverseRelationType: Option<string>
    var inverseRelationship: bool

    ghost predicate Valid()
      reads this
    {
      relationTypes != inverseRelationTypes
    }

    /** The constructor: no Member yet, three empty collections. */
    constructor (charVM: CharacterViewModel)
      ensures Valid() && this.charVM == charVM
      ensures member.None? && selectedPartner.None? && relationType.None? && inverseRelationType.None?
      ensures !inverseRelationship && !changeable && !changed
      ensures prospectivePartners.items == [] && relationTypes.items == [] && inverseRelationTypes.items == []
      ensures fresh(prospectivePartners) && fresh(relationTypes) && fresh(inverseRelationTypes)
    {
      this.charVM := charVM;
      changeable := false;
      changed := false;
      member := None;
      selectedPartner := None;
      relationType := None;
      inverseRelationType := None;
      inverseRelationship := false;
      prospectivePartners := new ObservableList<Element>();
      relationTypes := new ObservableList<string>();
      inverseRelationTypes := new ObservableList<string>();
    }

    /** OnPropertyChanged: a change counts only while the dialog is changeable;
        the flag is never cleared here. */
    method OnPropertyChanged()
      modifies this`changed
      ensures changed == (old(changed) || changeable)
    {
      if changeable {
        changed := true;
      }
    }

    // The four properties set through SetProperty, which raises
    // PropertyChanged only when the value actually changes.

    method SetSelectedPartner(value: Option<Element>)
      modifies this`selectedPartner, this`changed
      ensures selectedPartner == value
      ensures changed == (old(changed) || (changeable && value != old(selectedPartner)))
    {
      if value != selectedPartner {
        selectedPartner := value;
        OnPropertyChanged();
      }
    }

    method SetRelationType(value: Option<string>)
      modifies this`relationType, this`changed
      ensures relationType == value
      ensures changed == (old(changed) || (changeable && value != old(relationType)))
    {
      if value != relationType {
        relationType := value;
        OnPropertyChanged();
      }
    }

    method SetInverseRelationType(value: Option<string>)
      modifies this`inverseRelationType, this`changed
      ensures inverseRelationType == value
      ensures changed == (old(changed) || (changeable && value != old(inverseRelationType)))
    {
      if value != inverseRelationType {
        inverseRelationType := value;
        OnPropertyChanged();
      }
    }

    method SetInverseRelationship(value: bool)
      modifies this`inverseRelationship, this`changed
      ensures inverseRelationship == value
      ensures changed == (old(changed) || (changeable && value != old(inverseRelationship)))
    {
      if value != inverseRelationship {
        inverseRelationship := value;
        OnPropertyChanged();
      }
    }

    /** InitializeNewRelationshipVM: with change tracking off, takes the
        edited character as Member, rebuilds the three collections and resets
        the four properties; then turns change tracking on. */
    method InitializeNewRelationshipVM(characters: seq<Element>, globalRelationTypes: seq<string>)
      requires Valid()
      modifies this, prospectivePartners, relationTypes, inverseRelationTypes
      ensures Valid()
      ensures member == charVM.model
      ensures prospectivePartners.items == Candidates(characters, member, charVM.characterRelationships)
      ensures relationTypes.items == globalRelationTypes && inverseRelationTypes.items == globalRelationTypes
      ensures relationType == Some("") && inverseRelationType == Some("")
      ensures !inverseRelationship && selectedPartner.None?
      ensures changeable && changed == old(changed)
    {
      changeable := false;
      member := charVM.model;
      RefreshProspectivePartners(characters);
      RefreshRelationTypes(globalRelationTypes);
      RefreshInverseRelationTypes(globalRelationTypes);
      SetRelationType(Some(""));
      SetInverseRelationship(false);
      SetInverseRelationType(Some(""));
      SetSelectedPartner(None);
      changeable := true;
    }

    /** RefreshProspectivePartners: the list is cleared, then every character
        other than the Member and not yet anyone's Partner in the Member's
        relationships is added, in order. */
    method RefreshProspectivePartners(characters: seq<Element>)
      modifies prospectivePartners
      ensures prospectivePartners.items == Candidates(characters, member, charVM.characterRelationships)
    {
      prospectivePartners.Clear();
      var i := 0;
      while i < |characters|
        invariant 0 <= i <= |characters|
        invariant prospectivePartners.items == Candidates(characters[..i], member, charVM.characterRelationships)
      {
        var character := characters[i];
        assert characters[..i + 1][..i] == characters[..i];
        if Some(character) == member {
          i := i + 1;
          continue;
        }
        var isAlreadyInRelationship := Partnered(charVM.characterRelationships, character);
        if !isAlreadyInRelationship {
          prospectivePartners.Add(character);
        }
        i := i + 1;
      }
      assert characters[..i] == characters;
    }

    method RefreshRelationTypes(globalRelationTypes: seq<string>)
      requires Valid()
      modifies relationTypes
      ensures relationTypes.items == globalRelationTypes
    {
      PopulateRelationTypesCollection(relationTypes, globalRelationTypes);
    }

    method RefreshInverseRelationTypes(globalRelationTypes: seq<string>)
      requires Valid()
      modifies inverseRelationTypes
      ensures inverseRelationTypes.items == globalRelationTypes
    {
      PopulateRelationTypesCollection(inverseRelationTypes, globalRelationTypes);
    }

    /** PopulateRelationTypesCollection: the collection is cleared, then
        GlobalData.RelationTypes is added to it element by element. */
    static method PopulateRelationTypesCollection(collection: ObservableList<string>, globalRelationTypes: seq<string>)
      modifies collection
      ensures collection.items == globalRelationTypes
    {
      collection.Clear();
      for i := 0 to |globalRelationTypes|
        invariant collection.items == globalRelationTypes[..i]
      {
        collection.Add(globalRelationTypes[i]);
      }
      assert globalRelationTypes[..|globalRelationTypes|] == globalRelationTypes;
    }
  }
}
