/** The default validator provider: a fixed registry of two descriptors for
    the one format it validates, PEF, under its MIME type and under the
    legacy identifier (the validator class's canonical name), and a factory
    that binds a validator to whichever of the two it is asked for. */
module DefaultValidatorProvider {
  import opened Wrappers

  /** The MIME type of PEF. */
  const PefMime: string := "application/x-pef+xml"

  /** The legacy identifier: the canonical name of the PEF validator class,
      which lives in the same package as the provider. */
  const PefLegacy: string := "org.daisy.braille.utils.pef.PEFValidator"

  const DisplayName: string := "PEF Validator"
  const Description: string := "Validates PEF 1.0 files"

  /** The properties of one registered validator. Only the identifier is
      stored; the display name and the description are the same for every
      descriptor. */
  datatype Descriptor = Descriptor(identifier: string) {
    function GetIdentifier(): string {
      identifier
    }

    function GetDisplayName(): string {
      DisplayName
    }

    function GetDescription(): string {
      Description
    }
  }

  /** A PEF validator bound to the identifier it was created for; its schema
      checking is not modelled. */
  datatype Validator = PefValidator(identifier: string)

  /** The provider's state: the descriptor list built by its constructor. */
  datatype Provider = Provider(descriptors: seq<Descriptor>)

  /** The constructor: the MIME descriptor first, then the legacy one. */
  function NewProvider(): (p: Provider)
    ensures |p.descriptors| == 2
    ensures p.descriptors[0].GetIdentifier() == PefMime
    ensures p.descriptors[1].GetIdentifier() == PefLegacy
  {
    Provider([Descriptor(PefMime), Descriptor(PefLegacy)])
  }

  /** `list()`: the descriptors fixed at construction; for the provider the
      constructor builds, the MIME descriptor and then the legacy one. */
  function List(p: Provider): (r: seq<Descriptor>)
    ensures p == NewProvider() ==> |r| == 2 && r[0].GetIdentifier() == PefMime && r[1].GetIdentifier() == PefLegacy
  {
    p.descriptors
  }

  /** `newValidator(identifier)`: a validator bound to the identifier when it
      is one of the two PEF identifiers (compared exactly), `None` (Java's
      `null`) for every other identifier. */
  function NewValidator(identifier: string): (r: Option<Validator>)
    ensures r.Some? <==> identifier == PefMime || identifier == PefLegacy
    ensures r.Some? ==> r.value.identifier == identifier
  {
    if PefMime == identifier then Some(PefValidator(PefMime))
    else if PefLegacy == identifier then Some(PefValidator(PefLegacy))
    else None
  }

  /** The two identifiers are different, so the registry lists two distinct
      entries. */
  lemma IdentifiersDistinct()
    ensures PefMime != PefLegacy
  {
  }

  /** `list()` and `newValidator` agree: an identifier resolves to a
      validator exactly when a listed descriptor carries it, and the
      validator is bound to that identifier. */
  lemma ListedIffResolvable(identifier: string)
    ensures NewValidator(identifier).Some?
            <==> exists i :: 0 <= i < |List(NewProvider())| && List(NewProvider())[i].GetIdentifier() == identifier
    ensures NewValidator(identifier).Some? ==> NewValidator(identifier) == Some(PefValidator(identifier))
  {
    var l := List(NewProvider());
    if identifier == PefMime {
      assert l[0].GetIdentifier() == identifier;
    } else if identifier == PefLegacy {
      assert l[1].GetIdentifier() == identifier;
    }
  }

  /** Every listed descriptor resolves to a validator with its own identifier. */
  lemma EveryListedResolves()
    ensures forall d :: d in List(NewProvider()) ==> NewValidator(d.GetIdentifier()) == Some(PefValidator(d.GetIdentifier()))
  {
  }

  /** The descriptors differ only in their identifiers: all share the display
      name and the description, and two descriptors are equal exactly when
      their identifiers are. */
  lemma DescriptorsDifferOnlyByIdentifier()
    ensures forall d :: d in List(NewProvider()) ==> d.GetDisplayName() == "PEF Validator"
    ensures forall d :: d in List(NewProvider()) ==> d.GetDescription() == "Validates PEF 1.0 files"
    ensures forall d, e :: d in List(NewProvider()) && e in List(NewProvider()) ==>
              (d == e <==> d.GetIdentifier() == e.GetIdentifier())
    ensures List(NewProvider())[0] != List(NewProvider())[1]
  {
  }

  /** A third identifier, such as the MIME type in another case or the
      validator's simple class name, is not found. */
  lemma OtherIdentifiersNotFound()
    ensures NewValidator("application/X-PEF+XML") == None
    ensures NewValidator("PEFValidator") == None
    ensures NewValidator("") == None
  {
  }
}
