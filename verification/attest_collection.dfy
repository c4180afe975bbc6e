/** One table row of the home page: the collection, the button that sends the
    vote transaction, the label and colour derived from the transaction's state,
    and the effect the row runs when it is mounted. */
module AttestCollection {
  import opened Wrappers
  import opened Text
  import opened Records
  import opened Storage

  /** The error message a row holds before any classification. */
  const DefaultErrorMessage := "Already attested."
  const AlreadyVotedMessage := "Already voted."
  const UserDeniedMessage := "User denied tx."
  const UnknownErrorMessage := "Unknown error."

  /** Substrings of a transaction error message the classifier looks for. */
  const AlreadyVotedMarker := "Vote_AlreadyVoted"
  const UserDeniedMarker := "User denied"

  const AttestingLabel := "Attesting..."
  const AttestedLabel := "Attested!"
  const AttestLabel := "Attest"

  const ErrorColour := "bg-red-400"
  const SuccessColour := "bg-green-300"
  const IdleColour := "bg-slate-200"

  /** The image shown in place of a collection image that cannot be used. */
  const PlaceholderImage := "nftree.jpg"

  /** The lifecycle flags of the vote transaction, as the contract-write hook reports them. */
  datatype WriteStatus = WriteStatus(isLoading: bool, isSuccess: bool, isError: bool)

  /** The messages a row's error state can hold. */
  ghost predicate IsErrorMessage(m: string)
  {
    m == DefaultErrorMessage || m == AlreadyVotedMessage || m == UserDeniedMessage || m == UnknownErrorMessage
  }

  // ---------------------------------------------------------------------------
  // Error classification

  /** Turn a transaction error message into the text the row shows: an
      already-voted revert wins over a wallet rejection, anything else is unknown. */
  function ClassifyError(message: string): (caption: string)
    ensures IsErrorMessage(caption) && caption != DefaultErrorMessage
    ensures caption == AlreadyVotedMessage <==> Includes(message, AlreadyVotedMarker)
    ensures caption == UserDeniedMessage <==>
      !Includes(message, AlreadyVotedMarker) && Includes(message, UserDeniedMarker)
    ensures caption == UnknownErrorMessage <==>
      !Includes(message, AlreadyVotedMarker) && !Includes(message, UserDeniedMarker)
  {
    if Includes(message, AlreadyVotedMarker) then AlreadyVotedMessage
    else if Includes(message, UserDeniedMarker) then UserDeniedMessage
    else UnknownErrorMessage
  }

  /** A message carrying the already-voted revert reason is classified as such,
      whatever else it contains (a wallet rejection included). */
  lemma AlreadyVotedWins(pre: string, post: string)
    ensures ClassifyError(pre + AlreadyVotedMarker + post) == AlreadyVotedMessage
  {
    IncludesInfix(pre, AlreadyVotedMarker, post);
  }

  /** A wallet rejection is classified as a denied transaction, provided nothing
      around it could spell the already-voted reason (which starts with 'V').
      This is an illustration of one family of messages; the general rule, for
      every message, is the contract of `ClassifyError`. */
  lemma UserDeniedRecognised(pre: string, post: string)
    requires 'V' !in pre && 'V' !in post
    ensures ClassifyError(pre + UserDeniedMarker + post) == UserDeniedMessage
  {
    var m := pre + UserDeniedMarker + post;
    IncludesInfix(pre, UserDeniedMarker, post);
    assert 'V' !in UserDeniedMarker;
    assert 'V' !in m;
    NotIncludesWithoutHead(m, AlreadyVotedMarker);
  }

  /** A message in which neither marker can start is an unknown error. Like the
      lemma above this illustrates one family of messages (it does not cover, say,
      texts containing a capital 'U'); the general rule is `ClassifyError`'s contract. */
  lemma UnknownWithoutMarkers(message: string)
    requires 'V' !in message && 'U' !in message
    ensures ClassifyError(message) == UnknownErrorMessage
  {
    NotIncludesWithoutHead(message, AlreadyVotedMarker);
    NotIncludesWithoutHead(message, UserDeniedMarker);
  }

  // ---------------------------------------------------------------------------
  // Button label and colour

  /** The button text: loading first, then success, then the held error message. */
  function ButtonLabel(status: WriteStatus, errorMessage: string): (caption: string)
    ensures status.isLoading ==> caption == AttestingLabel
    ensures !status.isLoading && status.isSuccess ==> caption == AttestedLabel
    ensures !status.isLoading && !status.isSuccess && status.isError ==> caption == errorMessage
    ensures !status.isLoading && !status.isSuccess && !status.isError ==> caption == AttestLabel
  {
    if status.isLoading then AttestingLabel
    else if status.isSuccess then AttestedLabel
    else if status.isError then errorMessage
    else AttestLabel
  }

  /** The button background: error first, then success; loading plays no part. */
  function ButtonColour(status: WriteStatus): (colour: string)
    ensures colour == ErrorColour <==> status.isError
    ensures colour == SuccessColour <==> !status.isError && status.isSuccess
    ensures colour == IdleColour <==> !status.isError && !status.isSuccess
  {
    if status.isError then ErrorColour
    else if status.isSuccess then SuccessColour
    else IdleColour
  }

  /** The two chains check the flags in opposite orders: with both success and
      error set (and not loading) the button is red yet reads "Attested!". */
  lemma LabelAndColourDisagree(errorMessage: string)
    ensures var status := WriteStatus(false, true, true);
            ButtonColour(status) == ErrorColour && ButtonLabel(status, errorMessage) == AttestedLabel
  {
  }

  /** When at most one of success and error is set and nothing is loading, the
      colour follows the label: red exactly when an error message is shown, green
      exactly when "Attested!" is shown, slate exactly when "Attest" is shown. */
  lemma LabelAndColourAgree(status: WriteStatus, errorMessage: string)
    requires !status.isLoading && !(status.isSuccess && status.isError)
    requires IsErrorMessage(errorMessage)
    ensures var caption, colour := ButtonLabel(status, errorMessage), ButtonColour(status);
            && (colour == ErrorColour <==> IsErrorMessage(caption))
            && (colour == SuccessColour <==> caption == AttestedLabel)
            && (colour == IdleColour <==> caption == AttestLabel)
  {
  }

  // ---------------------------------------------------------------------------
  // Vault lookup and image source

  /** The vault of the first project whose id is the edition address, or nothing
      when no project has that id (the optional chain yields `undefined`). */
  function VaultAddress(allProjects: seq<Project>, editionAddress: string): (vault: Option<string>)
    ensures vault.None? <==> !HasProject(allProjects, editionAddress)
    ensures vault.Some? ==> exists i :: IsFirstMatch(allProjects, editionAddress, i)
                                        && vault.value == allProjects[i].vault.id
  {
    match FindProject(allProjects, editionAddress)
    case None => None
    case Some(i) => Some(allProjects[i].vault.id)
  }

  /** The image source as the row computes it. The guard joins three strict
      inequalities with `||`, and no value equals both "" and `null`, so the guard
      always holds and the placeholder branch is never taken. */
  function ImageSource(imageURI: JsValue): (src: JsValue)
    ensures src == imageURI
  {
    if imageURI != Str("") || imageURI != Null || imageURI != Undefined then imageURI
    else Str(PlaceholderImage)
  }

  /** The image source with the guard joined by `&&`: a usable URI is shown
      unchanged, an empty, `null` or missing one is replaced by the placeholder. */
  function ImageSourceIntended(imageURI: JsValue): (src: JsValue)
    ensures src.Str? && src.text != ""
    ensures imageURI.Str? && imageURI.text != "" ==> src == imageURI
    ensures imageURI == Str("") || imageURI.Null? || imageURI.Undefined? ==> src == Str(PlaceholderImage)
  {
    if imageURI != Str("") && imageURI != Null && imageURI != Undefined then imageURI
    else Str(PlaceholderImage)
  }

  /** An empty image URI shows the difference: the row as written passes the
      empty string on as the image source, the intended guard shows the placeholder. */
  lemma EmptyImageUriNotReplaced()
    ensures ImageSource(Str("")) == Str("")
    ensures ImageSourceIntended(Str("")) == Str(PlaceholderImage)
  {
  }

  // ---------------------------------------------------------------------------
  // The row's state and its mount effect

  class AttestRow {
    /** The collection this row shows. */
    const collection: Collection
    /** The error text the row shows when the transaction has failed. */
    var errorMessage: string

    ghost predicate Valid()
      reads this
    {
      IsErrorMessage(errorMessage)
    }

    /** A freshly mounted row holds "Already attested." as its error text. */
    constructor (collection: Collection)
      ensures Valid()
      ensures this.collection == collection && errorMessage == DefaultErrorMessage
    {
      this.collection := collection;
      errorMessage := DefaultErrorMessage;
    }

    /** The row's effect, which runs once when the row is mounted, with the
        transaction flags and error text of that moment: on error it classifies the
        message; on success it records the collection as attested in storage. */
    method RunMountEffect(status: WriteStatus, errorText: string, storage: BrowserStorage)
      requires Valid()
      modifies this, storage
      ensures Valid()
      ensures errorMessage == if status.isError then ClassifyError(errorText) else old(errorMessage)
      ensures status.isSuccess ==>
        storage.isSuccess == Some("true") &&
        storage.attestedCollections == Some(old(storage.AttestedList()) + [collection.editionAddress])
      ensures !status.isSuccess ==>
        storage.isSuccess == old(storage.isSuccess) &&
        storage.attestedCollections == old(storage.attestedCollections)
      ensures storage.collectionsToAttest == old(storage.collectionsToAttest)
    {
      if status.isError {
        errorMessage := ClassifyError(errorText);
      }
      if status.isSuccess {
        storage.RecordAttested(collection.editionAddress);
      }
    }

    /** The button text the row shows for the given transaction flags. */
    function Label(status: WriteStatus): (caption: string)
      reads this
      requires Valid()
      ensures status.isLoading ==> caption == AttestingLabel
      ensures !status.isLoading && !status.isSuccess && status.isError ==> IsErrorMessage(caption)
    {
      ButtonLabel(status, errorMessage)
    }
  }

  /** The effect runs only at mount. A row mounted while the transaction was not
      in error keeps "Already attested." as its error text, so a transaction that
      fails afterwards shows that text rather than a classified message. */
  method MountThenFail(collection: Collection, atMount: WriteStatus, errorText: string, storage: BrowserStorage)
    returns (caption: string)
    requires !atMount.isError
    modifies storage
    ensures caption == DefaultErrorMessage
  {
    var row := new AttestRow(collection);
    row.RunMountEffect(atMount, errorText, storage);
    caption := row.Label(WriteStatus(false, false, true));
  }

  /** A row mounted while the transaction was in error shows the classified
      message once loading and success are clear. */
  method MountInError(collection: Collection, errorText: string, storage: BrowserStorage)
    returns (caption: string)
    modifies storage
    ensures caption == ClassifyError(errorText)
    ensures caption != DefaultErrorMessage
  {
    var row := new AttestRow(collection);
    var status := WriteStatus(false, false, true);
    row.RunMountEffect(status, errorText, storage);
    caption := row.Label(status);
  }
}
