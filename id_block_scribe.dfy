/**
 * Multiplayer.ExposeIdBlock: saving an optional ID block under a label of
 * the save document, and loading it back.
 *
 * The block is written as text (base64 of its serialized bytes); that
 * codec is a parameter here, and the round trip holds for any codec whose
 * decoder inverts its encoder. The document is a map from labels to text.
 */
module IdBlockScribe {
  import opened Wrappers

  /** Verse's `LoadSaveMode`, the phase the scribe is in. */
  datatype LoadSaveMode = Inactive | Saving | LoadingVars | ResolvingCrossRefs | PostLoadInit

  /** The values stored in a save document, by label. */
  type Document = map<string, string>

  /**
   * Block to text and back. `decode` gives None where the source would
   * throw (text that is not base64, or bytes too short for a block).
   */
  datatype Codec<!B> = Codec(encode: B -> string, decode: string -> Option<B>)

  /** Decoding an encoded block gives the block back. */
  ghost predicate Inverse<B(!new)>(codec: Codec<B>) {
    forall b :: codec.decode(codec.encode(b)) == Some(b)
  }

  /**
   * `block` is the `ref` parameter on entry and `block'` on exit.
   * `malformed` is set where decoding the stored text throws; the
   * exception leaves `block` unassigned.
   */
  method ExposeIdBlock<B>(mode: LoadSaveMode, doc: Document, block: Option<B>, key: string, codec: Codec<B>)
    returns (doc': Document, block': Option<B>, malformed: bool)
    // Saving writes a present block's text under the key and nothing else.
    ensures mode == Saving && block.Some? ==> doc' == doc[key := codec.encode(block.value)]
    ensures mode == Saving && block.None? ==> doc' == doc
    ensures mode == Saving ==> block' == block && !malformed
    // Loading leaves the document alone; an absent label loads as no block.
    ensures mode == LoadingVars ==> doc' == doc
    ensures mode == LoadingVars && key !in doc ==> block' == None && !malformed
    ensures mode == LoadingVars && key in doc ==>
      malformed == codec.decode(doc[key]).None? &&
      block' == (if malformed then block else codec.decode(doc[key]))
    // Every other mode does nothing.
    ensures mode != Saving && mode != LoadingVars ==> doc' == doc && block' == block && !malformed
  {
    doc', block', malformed := doc, block, false;

    if mode == Saving && block.Some? {
      var text := codec.encode(block.value);
      doc' := doc'[key := text];
    }

    if mode == LoadingVars {
      var text: Option<string> := if key in doc' then Some(doc'[key]) else None;
      if text.Some? {
        var decoded := codec.decode(text.value);
        if decoded.Some? {
          block' := decoded;
        } else {
          malformed := true;
        }
      } else {
        block' := None;
      }
    }
  }

  /**
   * Saving a block and loading the resulting document gives the block
   * back, whatever was stored before and whatever the target held.
   */
  method SaveThenLoad<B(!new)>(doc: Document, block: Option<B>, key: string, codec: Codec<B>, target: Option<B>)
    returns (loaded: Option<B>, malformed: bool)
    requires Inverse(codec)
    ensures block.Some? ==> loaded == block && !malformed
    ensures block.None? && key !in doc ==> loaded == None && !malformed
  {
    var saved, _, _ := ExposeIdBlock(Saving, doc, block, key, codec);
    var _, result, bad := ExposeIdBlock(LoadingVars, saved, target, key, codec);
    loaded, malformed := result, bad;
  }
}
