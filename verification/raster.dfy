/** The image records the normalisation pipeline decides on.

    A Pillow image is reduced to its pixel size and its mode string; pixel
    data, the decoder and the TIFF encoder are not part of the model. */
module Raster {

  /** One page image: pixel width and height, and the Pillow mode ("1", "L", "RGB", ...). */
  datatype Image = Image(width: nat, height: nat, mode: string)

  /** What each compliance check hands back: did it change the page, and the page after it. */
  datatype Checked = Checked(changed: bool, image: Image)

  /** The Python exceptions the modelled code itself can raise. */
  datatype Fault = ZeroDivision

  datatype Result<T> = Ok(value: T) | Err(fault: Fault)

  datatype Option<T> = None | Some(value: T)

  /** Pillow's bilevel mode, the one the OCR engine refuses. */
  const BilevelMode: string := "1"

  const RgbMode: string := "RGB"

  function Max(a: nat, b: nat): nat {
    if a >= b then a else b
  }
}
