/** Machine types and small wrappers shared by the model of cnn_mnist.c. */
module Types {

  /** `uint8_t`: one pixel byte as it arrives on the serial link. */
  type byte = x: int | 0 <= x < 256

  /** `int8_t`: one cell of the engine's quantized input or output tensor. */
  type i8 = x: int | -128 <= x <= 127

  /** The result of a read that may time out (`getchar_timeout_us`). */
  datatype Option<T> = None | Some(value: T)

  /** `IMAGE_SIZE`: the number of bytes in one MNIST frame (28 x 28). */
  const ImageSize: int := 784

  /** Number of class scores `main` hands to `argmax_i8`. */
  const NumClasses: int := 10
}
