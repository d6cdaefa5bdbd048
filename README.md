# MNIST digit classifier firmware — Dafny model

This project models the firmware in `cnn_mnist.c`: a Raspberry Pi Pico
program that receives one 28 x 28 MNIST image at a time as 784 raw bytes
over USB serial, quantizes it into the int8 input tensor of a TensorFlow
Lite Micro network, runs the network, picks the class with the highest
score and reports it as `Predito: <digit>` on the serial link and on an
SSD1306 OLED display.

The model has four parts:

- `Quantize.dfy`: the integer half of `quantize_f32_to_i8`. The `long`
  returned by `lroundf(x / scale) + zp` is clamped to [-128, 127] and cast
  to `int8_t`. The float half (`raw / 255.0f`, the division by the scale,
  `lroundf`) becomes an integer-valued function `Params.rounded` of the
  pixel byte. That is exact as far as it goes, because `in_scale` is fixed
  once the engine has started.
- `Selector.dfy`: `argmax_i8`, as a loop over an array (`ArgMaxI8`). It is
  proved against a recursive specification (`ArgMax`) of the same
  left-to-right scan. The result is the lowest index holding a maximum
  score.
- `Pipeline.dfy`: the poll loop of `main` as a pure state machine. `Ctl`
  holds whether the program is parked, `buffer_index`, `raw_buffer`, the
  engine's input and output tensors, and a trace of what was made visible.
  `Next` is one pass of `while (true)` and `Run` is a sequence of passes.
  The lemmas about `Run` cover the frame cycle, the index bounds, the
  progress dots, timeouts, init failure and error recovery.
- `Firmware.dfy`: the same loop as a class. `raw_buffer` and the engine's
  tensors are arrays written in place. `Step` is one pass: `Accept` stores
  a byte and `Process` handles a full frame. `Serve` is a finite stretch of
  passes. `Step` is proved to follow `Pipeline.Next`, and `Serve` to
  follow `Pipeline.Run`.

Each pass takes its inputs as parameters: what the read returned
(`Option<byte>`, `None` for a timeout) and what the engine would answer if
invoked (`Reply`: the status of `tflm_invoke` and the contents it leaves in
the output tensor). The status of `tflm_init` is a parameter of the
constructor. Display drawing and serial output are recorded as events in a
ghost trace.

Two details of the code shape the model:
- Line 111 tests `buffer_index >= IMAGE_SIZE`, which equals `==` because the
  index never exceeds 784.
- The sizes returned on lines 80-82 are never compared with 784 and 10; the
  constructor takes them as preconditions.

## Model

| member | source | states |
|---|---|---|
| `Quantize.Clamp` | cnn_mnist.c:45-46 | the result is in [-128, 127]; an in-range value is unchanged, anything below becomes -128 and anything above 127 |
| `Quantize.ToInt8` | cnn_mnist.c:47 | the `(int8_t)` cast yields the int8 value congruent to its argument modulo 256, and it is the identity on in-range values |
| `Quantize.QuantizeF32ToI8` | cnn_mnist.c:43-48 | the quantized value is `rounded + zp` when that is in int8 range and saturates to -128 or 127 otherwise; the final cast never wraps |
| `Quantize.ClampIsNearest` | cnn_mnist.c:45-46 | the clamp returns the int8 value nearest its argument, and no other int8 value is as near |
| `Quantize.ClampMonotone` | cnn_mnist.c:45-46 | the clamp preserves order |
| `Quantize.ClampIdempotent` | cnn_mnist.c:45-46 | clamping a clamped value changes nothing |
| `Quantize.SaturatesWhereCastWraps` | cnn_mnist.c:44-47 | at 128 and -129 a bare cast would wrap to -128 and 127, while quantization saturates to 127 and -128 |
| `Quantize.BlackFrame` | cnn_mnist.c:120-123 | an all-zero frame quantizes to the clamped zero point in every cell |
| `Selector.ArgMax` | cnn_mnist.c:33-40 | the left-to-right scan ends on an index in range that holds a maximum, and every earlier index holds a strictly smaller score |
| `Selector.LowestMaxUnique` | cnn_mnist.c:34-38 | only one index is the lowest maximal one, so the properties above determine the class |
| `Selector.ArgMaxI8` | cnn_mnist.c:33-40 | the loop returns `ArgMax` of the first `n` scores (the lowest index of a maximum); for `n <= 1` it returns 0 |
| `Selector.TieGoesToLowestIndex` | cnn_mnist.c:37 | with scores 5, 5, 3, ... the class is 0 |
| `Selector.LastIndexWins` | cnn_mnist.c:36-38 | with nine scores of -128 and a last score of -127 the class is 9 |
| `Pipeline.ParseReport` | cnn_mnist.c:130 | a line read as a report holds exactly one digit 0-9 |
| `Pipeline.ReportLine` | cnn_mnist.c:130 | the `Predito: %d` line for a class 0-9 reads back as that class |
| `Pipeline.Start` | cnn_mnist.c:62-97 | after set-up the index is 0 and no dot or engine call has been made; the program is parked exactly when `tflm_init` returned non-zero, and then `Erro tflm_init` has been sent and `ERRO TFLM` shown |
| `Pipeline.OutcomeReports` | cnn_mnist.c:126-158 | a prediction is shown exactly when `tflm_invoke` returned 0, and so is a `Predito:` line; any line that reads as a report carries `ArgMax` of the first 10 scores, which lies in 0-9; on failure `Erro IA` is sent and `ERRO IA` shown; no engine call happens here |
| `Pipeline.Next` | cnn_mnist.c:99-162 | one pass keeps the index in [0, 784), stores the byte at the old index, and leaves everything unchanged after a timeout or once parked |
| `Pipeline.NextCompleting` | cnn_mnist.c:103-160 | the byte that brings the index to 784 is stored; the input tensor is then the quantization of the whole buffer and the engine has been called exactly once more; the trace keeps its old events and ends with the engine's reported outcome; the index is back at 0 |
| `Pipeline.Run` | cnn_mnist.c:99-163 | any number of passes keeps the index in [0, 784) and the parked flag as it was |
| `Pipeline.WithoutTimeouts` | cnn_mnist.c:100-102 | keeps exactly as many passes as delivered a byte, each one taken from the input and delivering a byte |
| `Pipeline.CycleInvokesOnce` | cnn_mnist.c:111-158 | a completed frame calls the engine exactly once |
| `Pipeline.RunHalted` | cnn_mnist.c:76 | no sequence of passes changes a parked controller |
| `Pipeline.InitFailureIsFinal` | cnn_mnist.c:71-77 | after a failed `tflm_init`, no byte is read and the engine is never invoked, however long the program runs |
| `Pipeline.RunSkipsTimeouts` | cnn_mnist.c:100-102 | running with timed-out reads gives the same state as running without them |
| `Pipeline.NextCounts` | cnn_mnist.c:103-160 | an accepted byte advances the index modulo 784 and calls the engine exactly when the index wraps |
| `Pipeline.RunCounts` | cnn_mnist.c:99-163 | after any passes the index is the number of accepted bytes modulo 784, and the engine has been called once per 784 accepted bytes |
| `Pipeline.CollectingPrefix` | cnn_mnist.c:103-109 | while a frame is collected into an empty buffer, byte j lands at `raw_buffer[j]`; later cells and the tensors are untouched; a dot is drawn at x = (k/100)*8 for each k that is a multiple of 100 |
| `Pipeline.FullFrame` | cnn_mnist.c:106-111 | the dots of one frame are exactly the seven at x = 8, 16, ..., 56; none is drawn at index 784 |
| `Pipeline.FrameCycle` | cnn_mnist.c:103-160 | 784 bytes from an empty buffer fill the buffer in order and draw seven dots at x = 8..56; all 784 tensor cells are then quantized from those bytes before the single engine call; the answer is reported and the index reset to 0 |
| `Pipeline.RecoversAfterInferenceError` | cnn_mnist.c:126-160 | a failed invocation only discards its frame: `Erro IA` is reported, then the next full frame is quantized, invoked and its `Predito:` line sent |
| `Firmware.Controller.constructor` | cnn_mnist.c:62-97 | the object starts in the state `Pipeline.Start` gives for the status of `tflm_init` |
| `Firmware.Controller.QuantizeInput` | cnn_mnist.c:120-123 | every cell of the input tensor holds the quantized value of the matching raw byte |
| `Firmware.Controller.Invoke` | cnn_mnist.c:126 | the engine is called on the current input tensor, its output fills the output tensor and its status is returned |
| `Firmware.Controller.Accept` | cnn_mnist.c:103-109 | the byte is stored at the old index, the index is advanced and a dot is drawn on multiples of 100 |
| `Firmware.Controller.Process` | cnn_mnist.c:111-160 | the full frame is quantized, the engine invoked once, its answer or the error reported and the index reset to 0 |
| `Firmware.Controller.Step` | cnn_mnist.c:99-162 | one pass of the poll loop changes the object exactly as `Pipeline.Next` does |
| `Firmware.Controller.Serve` | cnn_mnist.c:99-163 | a stretch of passes changes the object exactly as `Pipeline.Run` does |

## Left out

- Floating point: `raw / 255.0f`, `x / scale` and `lroundf` (lines 44 and 121) are abstracted as the integer function `Params.rounded`. The model does not model rounding half away from zero. It also does not model a quotient too large for `long`.
- Quantize.QuantizeF32ToI8: the sum `lroundf(...) + zp` is an unbounded integer here. Overflow of the 32-bit `long` is not modelled.
- The SSD1306 driver, I2C and GPIO set-up, and the exact drawing calls are foreign hardware calls. They appear only as abstract trace events: a screen with its strings, a dot with its x position, a prediction screen.
- TensorFlow Lite Micro internals. `tflm_init`, `tflm_invoke`, the tensor pointers and `tflm_input_scale`/`tflm_input_zero_point` are an external library. Their results are parameters: the init status, the `Reply` of each pass, and `Params`.
- Timing and the USB stack (`stdio_init_all`, `sleep_ms`, the 100 µs timeout of `getchar_timeout_us`). A read is an `Option<byte>`.
- The initial contents of `raw_buffer`, which C leaves uninitialised, are arbitrary in the model: nothing is promised about them. Every cell is overwritten before a frame is quantized.
- Firmware.Controller.constructor requires the engine's input and output tensors to be distinct arrays (`inTensor != outTensor`). The source never checks this and relies on the engine to keep them separate; aliased tensors are not modelled.
- The host script `enviar_imagem.py` only moves bytes and lines over the serial port and is not part of this model.
