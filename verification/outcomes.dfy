/** The assertions of the randomized sketch, as error results. */
module Outcomes {

  /** One value per `assert` of random.h that the model reaches. */
  datatype Fault =
    | WidthTooLarge       // next_is_sampled: mask width above the word size
    | FreeCountNotOne     // prepare_cur_buffer_for_collapse: not exactly one free buffer
    | NoCollapsibleLayer  // collapse: empty collapsible stack
    | LayerTooSmall       // collapse: chosen layer holds fewer than two buffers
    | PastTopLayer        // insert_cur_buffer_to_layers: layer index past the last layer
    | NotBottomLayer      // collapse: rotation while the collapsed layer is not layer 0
    | BottomNotEmpty      // collapse: rotation while layer 0 still holds buffers
    | NoFreeBuffer        // prepare_cur_buffer failed where it must succeed
    | NoEntryAtRank       // query_for_value: no entry at or below the target rank

  datatype Result<T> = Ok(value: T) | Err(fault: Fault)
}
