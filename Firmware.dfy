/**
 * `main` of cnn_mnist.c as an object: the frame buffer it fills in place,
 * the engine-owned input and output tensors it writes and reads, and the
 * poll loop as one `Step` per pass. Each method is proved to follow the
 * state machine of Pipeline.dfy.
 */
module Firmware {
  import opened Types
  import opened Quantize
  import opened Selector
  import opened Pipeline

  class Controller {
    /** `in_scale` and `in_zp`, read once after a successful `tflm_init`. */
    const params: Params
    /** `raw_buffer[IMAGE_SIZE]`. */
    const rawBuffer: array<byte>
    /** The engine's input tensor, as returned by `tflm_input_ptr`. */
    const inTensor: array<i8>
    /** The engine's output tensor, as returned by `tflm_output_ptr`. */
    const outTensor: array<i8>
    /** True once a failed `tflm_init` has parked the program in `while (true);`. */
    var halted: bool
    /** `buffer_index`. */
    var bufferIndex: int
    /** Everything written to the serial link and the display, and every engine call. */
    ghost var trace: seq<Event>

    /** The sizes `main` relies on without checking `in_bytes` and `out_bytes`. */
    ghost predicate Storage()
      reads this
    {
      rawBuffer.Length == ImageSize && inTensor.Length == ImageSize && outTensor.Length >= NumClasses
      && inTensor != outTensor
    }

    ghost predicate Valid()
      reads this
    {
      Storage() && 0 <= bufferIndex < ImageSize && (halted ==> bufferIndex == 0)
    }

    ghost function Abstract(): Ctl
      reads this, rawBuffer, inTensor, outTensor
    {
      Ctl(halted, bufferIndex, rawBuffer[..], inTensor[..], outTensor[..], trace)
    }

    /** The set-up part of `main`: splash screen, `tflm_init`, and either the waiting screen or the parked error. */
    constructor (initStatus: int, params: Params, inTensor: array<i8>, outTensor: array<i8>)
      requires inTensor.Length == ImageSize && outTensor.Length >= NumClasses && inTensor != outTensor
      ensures Valid() && fresh(rawBuffer)
      ensures this.params == params && this.inTensor == inTensor && this.outTensor == outTensor
      ensures Abstract() == Start(initStatus, rawBuffer[..], inTensor[..], outTensor[..])
    {
      this.params := params;
      this.inTensor := inTensor;
      this.outTensor := outTensor;
      rawBuffer := new byte[ImageSize];
      bufferIndex := 0;
      trace := [Screen(["INICIANDO..."])];
      if initStatus != 0 {
        trace := trace + [Serial("Erro tflm_init"), Screen(["ERRO TFLM"])];
        halted := true;
      } else {
        halted := false;
        trace := trace + [Screen(["AGUARDANDO", "DADOS PC..."]), Serial("Aguardando dados...")];
      }
    }

    /** The quantization loop: every cell of the input tensor from the matching raw byte. */
    method QuantizeInput()
      requires Storage()
      modifies inTensor
      ensures inTensor[..] == QuantizeFrame(params, rawBuffer[..])
    {
      for i := 0 to ImageSize
        invariant forall j :: 0 <= j < i ==> inTensor[j] == QuantizePixel(params, rawBuffer[j])
      {
        inTensor[i] := QuantizeF32ToI8(params.rounded(rawBuffer[i]), params.zp);
      }
    }

    /**
     * `tflm_invoke`: the engine reads the whole input tensor and leaves its
     * answer in the output tensor; `reply` is that answer.
     */
    method Invoke(reply: Reply) returns (status: int)
      requires Storage() && |reply.scores| == outTensor.Length
      modifies this`trace, outTensor
      ensures outTensor[..] == reply.scores && status == reply.status
      ensures trace == old(trace) + [Invoked(inTensor[..])]
    {
      trace := trace + [Invoked(inTensor[..])];
      ghost var input := inTensor[..];
      forall i | 0 <= i < outTensor.Length {
        outTensor[i] := reply.scores[i];
      }
      assert inTensor[..] == input;
      status := reply.status;
    }

    /** `raw_buffer[buffer_index++] = c`, and the progress dot on every hundredth byte. */
    method Accept(b: byte)
      requires Valid() && !halted
      modifies this`bufferIndex, this`trace, rawBuffer
      ensures rawBuffer[..] == old(rawBuffer[..])[old(bufferIndex) := b]
      ensures bufferIndex == old(bufferIndex) + 1
      ensures trace == old(trace) + Progress(bufferIndex)
    {
      rawBuffer[bufferIndex] := b;
      bufferIndex := bufferIndex + 1;
      if bufferIndex % 100 == 0 {
        trace := trace + [Dot((bufferIndex / 100) * 8)];
      }
    }

    /** A full frame: quantize it, invoke the engine, report the answer or the error, reset the index. */
    method Process(reply: Reply)
      requires Storage() && |reply.scores| == outTensor.Length
      modifies this`bufferIndex, this`trace, inTensor, outTensor
      ensures bufferIndex == 0
      ensures inTensor[..] == QuantizeFrame(params, rawBuffer[..])
      ensures outTensor[..] == reply.scores
      ensures trace == old(trace) + CycleEvents(inTensor[..], reply)
    {
      trace := trace + [Serial("Recebido. Processando..."), Screen(["PROCESSANDO"])];
      QuantizeInput();
      var status := Invoke(reply);
      if status == 0 {
        var pred := ArgMaxI8(outTensor, NumClasses);
        assert outTensor[..NumClasses] == reply.scores[..NumClasses];
        trace := trace + [Serial(ReportLine(pred)), ShowPrediction(pred)];
      } else {
        trace := trace + [Serial("Erro IA"), Screen(["ERRO IA"])];
      }
      bufferIndex := 0;
    }

    /** One pass of the poll loop, given what the read returned and what the engine would answer. */
    method Step(read: Option<byte>, reply: Reply)
      requires Valid() && |reply.scores| == outTensor.Length
      modifies this, rawBuffer, inTensor, outTensor
      ensures Valid()
      ensures Abstract() == Next(params, old(Abstract()), read, reply)
    {
      if halted || read.None? {
        return;
      }
      Accept(read.value);
      if bufferIndex >= ImageSize {
        Process(reply);
      }
    }

    /** A finite stretch of the `while (true)` poll loop. */
    method Serve(ticks: seq<Tick>)
      requires Valid() && forall t :: t in ticks ==> |t.reply.scores| == outTensor.Length
      modifies this, rawBuffer, inTensor, outTensor
      ensures Valid()
      ensures Fits(old(Abstract()), ticks) && Abstract() == Run(params, old(Abstract()), ticks)
    {
      ghost var s0 := Abstract();
      for i := 0 to |ticks|
        invariant Valid()
        invariant forall t :: t in ticks[..i] ==> t in ticks
        invariant Abstract() == Run(params, s0, ticks[..i])
      {
        assert ticks[..i + 1][..i] == ticks[..i];
        assert ticks[i] in ticks;
        Step(ticks[i].read, ticks[i].reply);
      }
      assert ticks[..|ticks|] == ticks;
    }
  }
}
